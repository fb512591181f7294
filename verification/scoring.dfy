/** `score`: how well a post answers a question, by shared words and two small bonuses. */
module Scoring {
  import opened Wrappers
  import opened Strings
  import opened Markup
  import opened Rewrite
  import opened Tokens
  import opened Posts

  /** A follow-up in the searchable text: its stripped content, a space, and its stripped
      comments joined by spaces. */
  function FollowupText(f: Followup): string {
    StripHtml(f.content.GetOr("")) + " " + Join(" ", StrippedTexts(f.comments))
  }

  function FollowupTexts(fs: seq<Followup>): seq<string> {
    seq(|fs|, i requires 0 <= i < |fs| => FollowupText(fs[i]))
  }

  /** The searchable text of a post: subject, stripped body, instructor replies, student
      replies and follow-ups, separated by spaces. */
  function FullText(p: Post): string {
    p.subject + " " + StripHtml(p.content)
    + " " + Join(" ", StrippedTexts(p.answers.instructor))
    + " " + Join(" ", StrippedTexts(p.answers.student))
    + " " + Join(" ", FollowupTexts(p.answers.followups))
  }

  /** `new Set(tokenize(s))`. */
  function TokenSet(s: string): set<string> {
    set t | t in Tokenize(s)
  }

  /** How many of the query tokens, counted with repetition, are in `words`. */
  function MatchCount(qs: seq<string>, words: set<string>): (n: nat)
    ensures n <= |qs|
    decreases |qs|
  {
    if qs == [] then 0
    else MatchCount(qs[..|qs| - 1], words) + (if qs[|qs| - 1] in words then 1 else 0)
  }

  /** The positions of the query tokens that are in `words`. */
  ghost function MatchingPositions(qs: seq<string>, words: set<string>): set<nat> {
    set i: nat | i < |qs| && qs[i] in words
  }

  /** The count counts every position: a repeated query word that the post contains adds one
      for each time it is repeated. */
  lemma {:induction false} MatchCountPositions(qs: seq<string>, words: set<string>)
    ensures MatchCount(qs, words) == |MatchingPositions(qs, words)|
    decreases |qs|
  {
    if qs != [] {
      var k := |qs| - 1;
      var front := qs[..k];
      MatchCountPositions(front, words);
      var before := MatchingPositions(front, words);
      var here: set<nat> := if qs[k] in words then {k} else {};
      forall i: nat ensures i in MatchingPositions(qs, words) <==> i in before + here {
        if i < k {
          assert front[i] == qs[i];
        }
      }
      assert MatchingPositions(qs, words) == before + here;
      assert k !in before;
    }
  }

  /** The +2 bonus: the lower-cased question occurs in the lower-cased subject. */
  function SubjectBonus(p: Post, q: string): (b: bool)
    ensures b <==> exists i :: OccursAt(Lower(p.subject), Lower(q), i)
  {
    Includes(Lower(p.subject), Lower(q))
  }

  /** `tags.some(tag => lq.includes(tag.toLowerCase()))`. */
  function SomeTagIn(tags: seq<string>, lq: string): (b: bool)
    ensures b <==> exists j, i :: 0 <= j < |tags| && OccursAt(lq, Lower(tags[j]), i)
    decreases |tags|
  {
    if tags == [] then false
    else if Includes(lq, Lower(tags[0])) then true
    else
      var b := SomeTagIn(tags[1..], lq);
      assert forall j, i :: 0 < j < |tags| && OccursAt(lq, Lower(tags[j]), i) ==>
               OccursAt(lq, Lower(tags[1..][j - 1]), i);
      b
  }

  /** The +1 bonus: some lower-cased tag occurs in the lower-cased question. The containment
      runs the other way from the subject bonus. */
  function TagBonus(p: Post, q: string): (b: bool)
    ensures b <==> exists j, i :: 0 <= j < |p.tags| && OccursAt(Lower(q), Lower(p.tags[j]), i)
  {
    SomeTagIn(p.tags, Lower(q))
  }

  /** The score of `p` for the question `q`, src/index.ts:48-91: the query tokens found among
      the post's tokens, plus 2 for the subject bonus and 1 for the tag bonus. */
  function ScoreOf(p: Post, q: string): (score: nat)
    ensures score <= |Tokenize(q)| + 3
    ensures score >= (if SubjectBonus(p, q) then 2 else 0) + (if TagBonus(p, q) then 1 else 0)
  {
    MatchCount(Tokenize(q), TokenSet(FullText(p)))
    + (if SubjectBonus(p, q) then 2 else 0)
    + (if TagBonus(p, q) then 1 else 0)
  }

  /** The loop of `score`: one point for each query token, counted with repetition, that is
      among the post's tokens. */
  method CountMatches(queryTokens: seq<string>, postTokens: set<string>) returns (matches: nat)
    ensures matches == MatchCount(queryTokens, postTokens)
    ensures matches == |MatchingPositions(queryTokens, postTokens)|
  {
    matches := 0;
    for i := 0 to |queryTokens|
      invariant matches == MatchCount(queryTokens[..i], postTokens)
    {
      assert queryTokens[..i + 1][..i] == queryTokens[..i];
      if queryTokens[i] in postTokens {
        matches := matches + 1;
      }
    }
    assert queryTokens[..|queryTokens|] == queryTokens;
    MatchCountPositions(queryTokens, postTokens);
  }

  /** `score(post, q)`: builds the searchable text, counts the query tokens it contains, and
      adds the bonuses. */
  method Score(p: Post, q: string) returns (score: int)
    ensures score == ScoreOf(p, q)
    ensures 0 <= score <= |Tokenize(q)| + 3
  {
    var fullText := FullText(p);
    var postTokens := TokenSet(fullText);
    var queryTokens := Tokenize(q);
    var matches := CountMatches(queryTokens, postTokens);
    if Includes(Lower(p.subject), Lower(q)) {
      matches := matches + 2;
    }
    if SomeTagIn(p.tags, Lower(q)) {
      matches := matches + 1;
    }
    score := matches;
  }

  /** Every text contains the empty text. */
  lemma IncludesEmpty(hay: string)
    ensures Includes(hay, "")
  {
    assert OccursAt(hay, "", 0);
  }

  /** Only the empty text occurs in the empty text. */
  lemma IncludedInEmpty(needle: string)
    ensures Includes("", needle) <==> needle == ""
  {
    if needle == "" {
      IncludesEmpty("");
    }
  }

  /** Against the empty question, exactly the empty tag matches. */
  lemma {:induction false} SomeTagInEmpty(tags: seq<string>)
    ensures SomeTagIn(tags, "") <==> "" in tags
    decreases |tags|
  {
    if tags != [] {
      IncludedInEmpty(Lower(tags[0]));
      LowerEmpty(tags[0]);
      SomeTagInEmpty(tags[1..]);
      assert tags == [tags[0]] + tags[1..];
    }
  }

  /** The empty question gets the subject bonus on every post, and the tag bonus exactly when
      the post has an empty tag; it has no tokens, so that is all of its score. */
  lemma EmptyQueryScore(p: Post)
    ensures ScoreOf(p, "") == 2 + (if "" in p.tags then 1 else 0)
  {
    TokenizeEmpty();
    LowerEmpty("");
    IncludesEmpty(Lower(p.subject));
    SomeTagInEmpty(p.tags);
  }

  /** An empty tag gives the tag bonus whatever the question. */
  lemma EmptyTagBonus(p: Post, q: string)
    requires "" in p.tags
    ensures TagBonus(p, q)
  {
    var j :| 0 <= j < |p.tags| && p.tags[j] == "";
    LowerEmpty(p.tags[j]);
    IncludesEmpty(Lower(q));
  }

  /** Posts that differ only in the forms of their entries score alike. */
  lemma EquivalentPostsScoreAlike(p1: Post, p2: Post, q: string)
    requires Equivalent(p1, p2)
    ensures ScoreOf(p1, q) == ScoreOf(p2, q)
  {
    StrippedTextsAlike(p1.answers.instructor, p2.answers.instructor);
    StrippedTextsAlike(p1.answers.student, p2.answers.student);
    var fs1, fs2 := p1.answers.followups, p2.answers.followups;
    forall i | 0 <= i < |fs1| ensures FollowupText(fs1[i]) == FollowupText(fs2[i]) {
      StrippedTextsAlike(fs1[i].comments, fs2[i].comments);
    }
    assert FollowupTexts(fs1) == FollowupTexts(fs2);
    assert FullText(p1) == FullText(p2);
  }

  // ---- the words of the searchable text ----

  /** The tokens of two texts joined by a space are the tokens of either. */
  lemma TokenSetSplit(a: string, b: string)
    ensures TokenSet(a + " " + b) == TokenSet(a) + TokenSet(b)
  {
    TokenizeSplit(a, b);
  }

  /** `t` is a token of one of the texts. */
  ghost predicate InSome(texts: seq<string>, t: string) {
    exists i :: 0 <= i < |texts| && t in TokenSet(texts[i])
  }

  /** `t` is a token of one of the texts when it is a token of the first or of one of the
      others. */
  lemma InSomeCons(texts: seq<string>, t: string)
    requires texts != []
    ensures InSome(texts, t) <==> t in TokenSet(texts[0]) || InSome(texts[1..], t)
  {
    var rest := texts[1..];
    if InSome(rest, t) {
      var i :| 0 <= i < |rest| && t in TokenSet(rest[i]);
      assert texts[i + 1] == rest[i];
    }
    if InSome(texts, t) && t !in TokenSet(texts[0]) {
      var i :| 0 <= i < |texts| && t in TokenSet(texts[i]);
      assert rest[i - 1] == texts[i];
    }
  }

  /** A token of texts joined by spaces is a token of one of them, and back. */
  lemma {:induction false} JoinTokens(texts: seq<string>, t: string)
    ensures t in TokenSet(Join(" ", texts)) <==> InSome(texts, t)
    decreases |texts|
  {
    if |texts| == 0 {
      TokenizeEmpty();
    } else if |texts| == 1 {
      InSomeCons(texts, t);
    } else {
      TokenSetSplit(texts[0], Join(" ", texts[1..]));
      JoinTokens(texts[1..], t);
      InSomeCons(texts, t);
    }
  }

  /** `t` is a word of the follow-up's content or of one of its comments. */
  ghost predicate FollowupHasWord(f: Followup, t: string) {
    t in TokenSet(StripHtml(f.content.GetOr(""))) || InSome(StrippedTexts(f.comments), t)
  }

  /** `t` is a word of the subject, the body, a reply or a follow-up of the post. */
  ghost predicate PostHasWord(p: Post, t: string) {
    || t in TokenSet(p.subject)
    || t in TokenSet(StripHtml(p.content))
    || InSome(StrippedTexts(p.answers.instructor), t)
    || InSome(StrippedTexts(p.answers.student), t)
    || exists i :: 0 <= i < |p.answers.followups| && FollowupHasWord(p.answers.followups[i], t)
  }

  /** The words of a follow-up's searchable text. */
  lemma FollowupTextWords(f: Followup, t: string)
    ensures t in TokenSet(FollowupText(f)) <==> FollowupHasWord(f, t)
  {
    TokenSetSplit(StripHtml(f.content.GetOr("")), Join(" ", StrippedTexts(f.comments)));
    JoinTokens(StrippedTexts(f.comments), t);
  }

  /** The words of the follow-ups' searchable text. */
  lemma FollowupsWords(fs: seq<Followup>, t: string)
    ensures t in TokenSet(Join(" ", FollowupTexts(fs))) <==>
      exists i :: 0 <= i < |fs| && FollowupHasWord(fs[i], t)
  {
    var texts := FollowupTexts(fs);
    JoinTokens(texts, t);
    forall i | 0 <= i < |fs| ensures t in TokenSet(texts[i]) <==> FollowupHasWord(fs[i], t) {
      FollowupTextWords(fs[i], t);
    }
  }

  /** The tokens of the searchable text are exactly the words of the post's parts: the
      separating spaces neither join two words nor make new ones. */
  lemma FullTextWords(p: Post, t: string)
    ensures t in TokenSet(FullText(p)) <==> PostHasWord(p, t)
  {
    var a := p.subject;
    var b := StripHtml(p.content);
    var c := Join(" ", StrippedTexts(p.answers.instructor));
    var d := Join(" ", StrippedTexts(p.answers.student));
    var e := Join(" ", FollowupTexts(p.answers.followups));
    TokenSetSplit(a, b);
    TokenSetSplit(a + " " + b, c);
    TokenSetSplit(a + " " + b + " " + c, d);
    TokenSetSplit(a + " " + b + " " + c + " " + d, e);
    JoinTokens(StrippedTexts(p.answers.instructor), t);
    JoinTokens(StrippedTexts(p.answers.student), t);
    FollowupsWords(p.answers.followups, t);
  }

  /** The score counts, with repetition, the query tokens that are words of some part of the
      post, and adds the two bonuses. */
  lemma ScoreCountsPostWords(p: Post, q: string)
    ensures var qs := Tokenize(q);
      ScoreOf(p, q) == |set i: nat | i < |qs| && PostHasWord(p, qs[i])|
        + (if SubjectBonus(p, q) then 2 else 0) + (if TagBonus(p, q) then 1 else 0)
  {
    var qs := Tokenize(q);
    var words := TokenSet(FullText(p));
    MatchCountPositions(qs, words);
    forall i: nat | i < |qs| ensures qs[i] in words <==> PostHasWord(p, qs[i]) {
      FullTextWords(p, qs[i]);
    }
    assert MatchingPositions(qs, words) == set i: nat | i < |qs| && PostHasWord(p, qs[i]);
  }

  /** A one-word question that is a word of the subject scores one for that word, on top of
      the subject bonus when it has it. */
  lemma SubjectWordCounts(p: Post, q: string, w: string)
    requires Tokenize(q) == [w] && w in TokenSet(p.subject)
    ensures ScoreOf(p, q) >= 1 + (if SubjectBonus(p, q) then 2 else 0)
  {
    var words := TokenSet(FullText(p));
    FullTextWords(p, w);
    assert [w][..0] == [];
    assert MatchCount([w], words) == 1;
  }

  /** A question that is, up to case, the first word of the subject finds the post: the word
      matches once and the question occurs in the lower-cased subject. The question "midterm"
      and the subject "Midterm 1 curve" are the case `first = "Midterm"`, `rest = "1 curve"`. */
  lemma FirstSubjectWordFinds(p: Post, q: string, first: string, rest: string)
    requires p.subject == first + " " + rest
    requires first != "" && AllIn(Lower(first), Word) && Lower(q) == Lower(first)
    ensures ScoreOf(p, q) >= 3
  {
    var w := Lower(first);
    FirstWordTokens(q, first, rest);
    SubjectWordCounts(p, q, w);
    FirstWordBonus(p, q, first, rest);
  }

  /** The question is the one token `Lower(first)`, and that is a token of the subject. */
  lemma FirstWordTokens(q: string, first: string, rest: string)
    requires first != "" && AllIn(Lower(first), Word) && Lower(q) == Lower(first)
    ensures Tokenize(q) == [Lower(first)] && Lower(first) in TokenSet(first + " " + rest)
  {
    WordsOfWord(Lower(first));
    TokenizeSplit(first, rest);
  }

  /** The question occurs at the start of the lower-cased subject. */
  lemma FirstWordBonus(p: Post, q: string, first: string, rest: string)
    requires p.subject == first + " " + rest && Lower(q) == Lower(first)
    ensures SubjectBonus(p, q)
  {
    assert Lower(p.subject)[..|first|] == Lower(first);
    assert OccursAt(Lower(p.subject), Lower(q), 0);
  }
}
