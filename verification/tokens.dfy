/** `tokenize`: the words of a text, for matching a question against a post. */
module Tokens {
  import opened Strings
  import opened Rewrite

  /** No whitespace character. */
  predicate NoSpace(t: string) {
    forall k :: 0 <= k < |t| ==> !IsSpace(t[k])
  }

  /** `s.split(/\s+/)`: the pieces between runs of whitespace. A leading or trailing run gives
      an empty first or last piece, and the empty text gives one empty piece. */
  function SplitWs(s: string): (pieces: seq<string>)
    ensures |pieces| >= 1
    ensures forall i :: 0 <= i < |pieces| ==> NoSpace(pieces[i])
  {
    SplitFrom(s, "")
  }

  /** Every whitespace character of `s` is a plain space, and none is followed by another
      whitespace character: the form a text has after `[^a-z0-9_]+` was replaced by `" "`. */
  predicate LoneSpaces(s: string) {
    forall i :: 0 <= i < |s| && IsSpace(s[i]) ==> s[i] == ' ' && (i + 1 < |s| ==> !IsSpace(s[i + 1]))
  }

  /** On such a text the split undoes a join with `" "`: the pieces are the text between the
      spaces, in order. */
  lemma SplitWsJoin(s: string)
    requires LoneSpaces(s)
    ensures Join(" ", SplitWs(s)) == s
  {
    SplitFromJoin(s, "");
    assert "" + s == s;
  }

  /** Joining the pieces of the split of `s`, with `cur` read so far, gives back `cur + s`. */
  lemma {:induction false} SplitFromJoin(s: string, cur: string)
    requires LoneSpaces(s)
    ensures Join(" ", SplitFrom(s, cur)) == cur + s
    decreases |s|
  {
    if s == [] {
      assert cur + s == cur;
    } else {
      LoneSpacesTail(s);
      var t := s[1..];
      if IsSpace(s[0]) {
        LoneSpaceRun(s);
        SplitFromJoin(t, "");
        JoinCons(" ", cur, SplitFrom(t, ""));
        assert s == [' '] + t;
      } else {
        SplitFromJoin(t, cur + [s[0]]);
        assert cur + [s[0]] + t == cur + s;
      }
    }
  }

  /** What follows the first character still has lone spaces. */
  lemma LoneSpacesTail(s: string)
    requires LoneSpaces(s) && s != []
    ensures LoneSpaces(s[1..])
  {
    var t := s[1..];
    forall i | 0 <= i < |t| && IsSpace(t[i])
      ensures t[i] == ' ' && (i + 1 < |t| ==> !IsSpace(t[i + 1]))
    {
      assert t[i] == s[i + 1];
      if i + 1 < |t| { assert t[i + 1] == s[i + 2]; }
    }
  }

  /** A whitespace run at the head of such a text is one plain space. */
  lemma LoneSpaceRun(s: string)
    requires LoneSpaces(s) && s != [] && IsSpace(s[0])
    ensures s[0] == ' ' && ClassRunLength(s, Space) == 1
  {
    var n := ClassRunLength(s, Space);
    assert s[..n][0] == s[0];
    if |s| > 1 { assert !InClass(s[1], Space); }
  }

  /** A join of a part in front of at least one more. */
  lemma JoinCons(sep: string, x: string, rest: seq<string>)
    requires rest != []
    ensures Join(sep, [x] + rest) == x + sep + Join(sep, rest)
  {
    assert ([x] + rest)[1..] == rest;
  }

  /** The split of `s`, where `cur` is the piece read so far. */
  function SplitFrom(s: string, cur: string): (pieces: seq<string>)
    ensures |pieces| >= 1
    ensures NoSpace(cur) ==> forall i :: 0 <= i < |pieces| ==> NoSpace(pieces[i])
    decreases |s|
  {
    if s == [] then [cur]
    else if IsSpace(s[0]) then
      var n := ClassRunLength(s, Space);
      [cur] + SplitFrom(s[n..], "")
    else SplitFrom(s[1..], cur + [s[0]])
  }

  /** The reference definition of the words of a text: its maximal runs of `[a-z0-9_]`, from
      left to right. */
  function Words(t: string): (ws: seq<string>)
    ensures forall i :: 0 <= i < |ws| ==> ws[i] != "" && AllIn(ws[i], Word)
    decreases |t|
  {
    if t == [] then []
    else if !IsWordChar(t[0]) then Words(t[1..])
    else
      var m := ClassRunLength(t, Word);
      [t[..m]] + Words(t[m..])
  }

  /** `tokenize(s)`, src/index.ts:38-44: lower-case, turn every run of characters outside
      `[a-z0-9_]` into one space, split on whitespace and drop the empty pieces. The tokens are
      exactly the maximal runs of `[a-z0-9_]` in the lower-cased text. */
  function Tokenize(s: string): (tokens: seq<string>)
    ensures tokens == Words(Lower(s))
    ensures forall i :: 0 <= i < |tokens| ==> tokens[i] != "" && AllIn(tokens[i], Word)
  {
    var t := Lower(s);
    SplitMatchesWords(t, "");
    assert "" + t == t;
    NonEmpty(SplitWs(ReplaceAll(t, NonWordRun, " ")))
  }

  /** The empty question has no tokens. */
  lemma TokenizeEmpty()
    ensures Tokenize("") == []
  {
  }

  // ---- the pipeline computes the reference definition ----

  /** A text that starts with a word character keeps it in front. */
  lemma ReplaceWordHead(t: string)
    requires t != [] && IsWordChar(t[0])
    ensures ReplaceAll(t, NonWordRun, " ") == [t[0]] + ReplaceAll(t[1..], NonWordRun, " ")
  {
    assert MatchLength(NonWordRun, t) == 0;
  }

  /** A run of non-word characters at the head becomes one space. */
  lemma ReplaceNonWordHead(t: string) returns (n: nat)
    requires t != [] && !IsWordChar(t[0])
    ensures 0 < n <= |t| && AllIn(t[..n], NonWord) && (n < |t| ==> IsWordChar(t[n]))
    ensures ReplaceAll(t, NonWordRun, " ") == " " + ReplaceAll(t[n..], NonWordRun, " ")
  {
    n := MatchLength(NonWordRun, t);
  }

  /** A text of word characters is a single word, or none when empty. */
  lemma WordsOfWord(cur: string)
    requires AllIn(cur, Word)
    ensures Words(cur) == (if cur == "" then [] else [cur])
  {
    if cur != "" {
      RunExact(cur, Word, |cur|);
      assert cur[..|cur|] == cur;
    }
  }

  /** Non-word characters at the head are skipped. */
  lemma {:induction false} WordsSkip(t: string, n: nat)
    requires n <= |t| && AllIn(t[..n], NonWord)
    ensures Words(t) == Words(t[n..])
    decreases n
  {
    if n > 0 {
      assert t[..n][0] == t[0];
      assert t[1..][..n - 1] == t[1..n];
      var u := t[1..][..n - 1];
      forall i | 0 <= i < |u| ensures InClass(u[i], NonWord) {
        assert u[i] == t[..n][i + 1];
      }
      WordsSkip(t[1..], n - 1);
      assert t[1..][n - 1..] == t[n..];
    }
  }

  /** A word followed by a non-word character ends there. */
  lemma WordsAfterWord(cur: string, t: string)
    requires cur != "" && AllIn(cur, Word) && t != [] && !IsWordChar(t[0])
    ensures Words(cur + t) == [cur] + Words(t)
  {
    var u := cur + t;
    assert u[..|cur|] == cur;
    assert u[|cur|] == t[0];
    RunExact(u, Word, |cur|);
    assert u[|cur|..] == t;
  }

  /** A character outside `[a-z0-9_]` separates words: the words of `a + [c] + b` are the
      words of `a` followed by the words of `b`. */
  lemma {:induction false} WordsSplit(a: string, c: char, b: string)
    requires !IsWordChar(c)
    ensures Words(a + [c] + b) == Words(a) + Words(b)
    decreases |a|
  {
    var s := a + [c] + b;
    if a == [] {
      assert s == [c] + b && s[1..] == b;
    } else if !IsWordChar(a[0]) {
      assert s[1..] == a[1..] + [c] + b;
      WordsSplit(a[1..], c, b);
    } else {
      var m := ClassRunLength(a, Word);
      var w := a[..m];
      var r := a[m..];
      assert a == w + r;
      if m == |a| {
        WordThenSeparator(a, c, b);
      } else {
        WordsAfterWord(w, r);
        WordsAfterWord(w, r + [c] + b);
        assert s == w + (r + [c] + b);
        WordsSplit(r, c, b);
      }
    }
  }

  /** A word followed by a separator. */
  lemma WordThenSeparator(a: string, c: char, b: string)
    requires a != "" && AllIn(a, Word) && !IsWordChar(c)
    ensures Words(a + [c] + b) == Words(a) + Words(b)
  {
    WordsOfWord(a);
    WordsAfterWord(a, [c] + b);
    assert a + [c] + b == a + ([c] + b);
    assert ([c] + b)[1..] == b;
  }

  /** The tokens of two texts joined by a space are the tokens of the first followed by the
      tokens of the second. */
  lemma TokenizeSplit(a: string, b: string)
    ensures Tokenize(a + " " + b) == Tokenize(a) + Tokenize(b)
  {
    assert Lower(a + " " + b) == Lower(a) + [' '] + Lower(b);
    WordsSplit(Lower(a), ' ', Lower(b));
  }

  /** The heart of `tokenize`: splitting the rewritten text, with `cur` already read into the
      current piece, and dropping empty pieces gives the words of `cur + t`. */
  lemma {:induction false} SplitMatchesWords(t: string, cur: string)
    requires AllIn(cur, Word)
    ensures NonEmpty(SplitFrom(ReplaceAll(t, NonWordRun, " "), cur)) == Words(cur + t)
    decreases |t|, 1
  {
    if t == [] {
      assert cur + t == cur;
      WordsOfWord(cur);
    } else if IsWordChar(t[0]) {
      SplitMatchesWordsAtWord(t, cur);
    } else {
      SplitMatchesWordsAtNonWord(t, cur);
    }
  }

  lemma {:induction false} SplitMatchesWordsAtWord(t: string, cur: string)
    requires AllIn(cur, Word) && t != [] && IsWordChar(t[0])
    ensures NonEmpty(SplitFrom(ReplaceAll(t, NonWordRun, " "), cur)) == Words(cur + t)
    decreases |t|, 0
  {
    var c := cur + [t[0]];
    forall i | 0 <= i < |c| ensures InClass(c[i], Word) {
      if i < |cur| {
        assert c[i] == cur[i];
      }
    }
    assert c + t[1..] == cur + t;
    SplitWordStep(t, cur);
    SplitMatchesWords(t[1..], c);
  }

  lemma {:induction false} SplitMatchesWordsAtNonWord(t: string, cur: string)
    requires AllIn(cur, Word) && t != [] && !IsWordChar(t[0])
    ensures NonEmpty(SplitFrom(ReplaceAll(t, NonWordRun, " "), cur)) == Words(cur + t)
    decreases |t|, 0
  {
    var n := SplitNonWordStep(t, cur);
    var rest := SplitFrom(ReplaceAll(t[n..], NonWordRun, " "), "");
    NonEmptyAppend([cur], rest);
    SplitMatchesWords(t[n..], "");
    assert "" + t[n..] == t[n..];
  }

  /** A word character of the text joins the current piece. */
  lemma SplitWordStep(t: string, cur: string)
    requires t != [] && IsWordChar(t[0])
    ensures SplitFrom(ReplaceAll(t, NonWordRun, " "), cur)
         == SplitFrom(ReplaceAll(t[1..], NonWordRun, " "), cur + [t[0]])
  {
    var r := ReplaceAll(t[1..], NonWordRun, " ");
    ReplaceWordHead(t);
    assert ([t[0]] + r)[0] == t[0] && ([t[0]] + r)[1..] == r;
  }

  /** A run of non-word characters ends the current piece, on both sides of the equation. */
  lemma SplitNonWordStep(t: string, cur: string) returns (n: nat)
    requires AllIn(cur, Word) && t != [] && !IsWordChar(t[0])
    ensures 0 < n <= |t|
    ensures SplitFrom(ReplaceAll(t, NonWordRun, " "), cur)
         == [cur] + SplitFrom(ReplaceAll(t[n..], NonWordRun, " "), "")
    ensures Words(cur + t) == NonEmpty([cur]) + Words(t[n..])
  {
    n := ReplaceNonWordHead(t);
    var r := ReplaceAll(t[n..], NonWordRun, " ");
    var u := " " + r;
    SpaceThenWord(t, n, r);
    assert u[1..] == r;
    WordsSkip(t, n);
    assert NonEmpty([cur]) == if cur == "" then [] else [cur];
    if cur == "" {
      assert cur + t == t;
    } else {
      WordsAfterWord(cur, t);
    }
  }

  /** The space that replaces a run of non-word characters is a whitespace run of length one,
      since the rewritten rest starts with a word character or is empty. */
  lemma SpaceThenWord(t: string, n: nat, r: string)
    requires 0 < n <= |t| && (n < |t| ==> IsWordChar(t[n]))
    requires r == ReplaceAll(t[n..], NonWordRun, " ")
    ensures ClassRunLength(" " + r, Space) == 1
  {
    var u := " " + r;
    if r != [] {
      assert t[n..] != [] && t[n..][0] == t[n];
      assert MatchLength(NonWordRun, t[n..]) == 0;
      assert u[1] == r[0] == t[n];
    }
    assert u[..1] == " ";
    RunExact(u, Space, 1);
  }
}
