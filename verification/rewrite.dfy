/** The part of JavaScript's `String.prototype.replace` with a global regular expression that the
    normalizer and the tokenizer rely on: a left-to-right scan that replaces every
    non-overlapping match of one of a fixed set of patterns by a fixed replacement text. */
module Rewrite {
  import opened Strings

  /** The character classes the patterns repeat. */
  datatype CharClass = Space | Newline | Word | NonWord | NotGt

  predicate InClass(c: char, k: CharClass) {
    match k
    case Space => IsSpace(c)
    case Newline => c == '\n'
    case Word => IsWordChar(c)
    case NonWord => !IsWordChar(c)
    case NotGt => c != '>'
  }

  predicate AllIn(s: string, k: CharClass) {
    forall i :: 0 <= i < |s| ==> InClass(s[i], k)
  }

  /** The characters of `s` from index `i` up to index `j` all belong to class `k`. */
  predicate RunBetween(s: string, i: nat, j: nat, k: CharClass) {
    i <= j <= |s| && AllIn(s[i..j], k)
  }

  /** The end of the longest run of class `k` that starts at index `i` (a greedy `k*`). */
  function Span(s: string, i: nat, k: CharClass): (j: nat)
    requires i <= |s|
    ensures i <= j <= |s|
    ensures RunBetween(s, i, j, k)
    ensures j < |s| ==> !InClass(s[j], k)
    decreases |s| - i
  {
    if i < |s| && InClass(s[i], k) then Span(s, i + 1, k) else i
  }

  /** A run that ends at a character outside the class is the one `Span` finds. */
  lemma {:induction false} SpanExact(s: string, i: nat, k: CharClass, m: nat)
    requires i <= m <= |s|
    requires AllIn(s[i..m], k)
    requires m < |s| ==> !InClass(s[m], k)
    ensures Span(s, i, k) == m
    decreases m - i
  {
    if i < m {
      assert s[i..m][0] == s[i];
      assert s[i + 1..m] == s[i..m][1..];
      SpanExact(s, i + 1, k, m);
    }
  }

  /** A run stops at the first character outside the class. */
  lemma SpanStops(s: string, i: nat, k: CharClass, m: nat)
    requires i <= m < |s| && !InClass(s[m], k)
    ensures Span(s, i, k) <= m
  {
  }

  /** The regular expressions of the source, written as patterns. */
  datatype Pattern =
    | BrTag               // <br\s*\/?>  with letters in either case
    | BlockClose          // <\/(p|div|md)>  with letters in either case
    | AnyTag              // <[^>]+>
    | Literal(text: string)
    | NewlineRun          // \n{3,}
    | NonWordRun          // [^a-z0-9_]+

  /** The language of each pattern: the strings it matches in full. */
  predicate Matches(p: Pattern, t: string) {
    match p
    case BrTag => |t| >= 4 && Lower(t[..3]) == "<br" && BrTail(t)
    case BlockClose => Lower(t) == "</p>" || Lower(t) == "</div>" || Lower(t) == "</md>"
    case AnyTag => |t| >= 3 && t[0] == '<' && t[|t| - 1] == '>' && AllIn(t[1..|t| - 1], NotGt)
    case Literal(x) => x != "" && t == x
    case NewlineRun => |t| >= 3 && AllIn(t, Newline)
    case NonWordRun => |t| >= 1 && AllIn(t, NonWord)
  }

  /** The first `n` characters of `s` are a string of the pattern's language. */
  predicate MatchesPrefix(p: Pattern, s: string, n: nat) {
    n <= |s| && Matches(p, s[..n])
  }

  /** What follows `<br` in a line break tag: whitespace, an optional `/`, and `>`. */
  predicate BrTail(t: string)
    requires |t| >= 4
  {
    t[|t| - 1] == '>'
    && (AllIn(t[3..|t| - 1], Space) || (|t| >= 5 && t[|t| - 2] == '/' && AllIn(t[3..|t| - 2], Space)))
  }

  /** Where a match of `p` at the start of `s` would end: the longest prefix of `s` in the
      pattern's language, or 0 when no prefix is. For these patterns the longest match is the one
      a backtracking matcher reports: `BrTag`, `BlockClose`, `AnyTag` and `Literal` have at most
      one match at a position, and the two runs are greedy. */
  function MatchLength(p: Pattern, s: string): (n: nat)
    ensures n <= |s|
    ensures n > 0 ==> MatchesPrefix(p, s, n)
    ensures forall m :: n < m <= |s| ==> !Matches(p, s[..m])
  {
    match p
    case BrTag => BrTagLength(s)
    case BlockClose => BlockCloseLength(s)
    case AnyTag => AnyTagLength(s)
    case Literal(x) => LiteralLength(x, s)
    case NewlineRun => NewlineRunLength(s)
    case NonWordRun => ClassRunLength(s, NonWord)
  }

  /** The greedy run `k+` at the start of `s`. */
  function ClassRunLength(s: string, k: CharClass): (n: nat)
    ensures n <= |s|
    ensures RunBetween(s, 0, n, k)
    ensures forall m :: n < m <= |s| ==> !AllIn(s[..m], k)
    ensures n < |s| ==> !InClass(s[n], k)
    ensures s != [] && InClass(s[0], k) ==> n >= 1
  {
    var j := Span(s, 0, k);
    RunLongest(s, k, j);
    j
  }

  lemma RunLongest(s: string, k: CharClass, j: nat)
    requires j == Span(s, 0, k)
    ensures AllIn(s[..j], k)
    ensures forall m :: j < m <= |s| ==> !AllIn(s[..m], k)
  {
    assert s[0..j] == s[..j];
    forall m | j < m <= |s| ensures !AllIn(s[..m], k) {
      assert s[..m][j] == s[j];
    }
  }

  /** A run that ends at a character outside the class, or at the end, is the greedy run. */
  lemma RunExact(s: string, k: CharClass, m: nat)
    requires m <= |s| && AllIn(s[..m], k)
    requires m < |s| ==> !InClass(s[m], k)
    ensures ClassRunLength(s, k) == m
  {
    assert s[0..m] == s[..m];
    SpanExact(s, 0, k, m);
  }

  /** The greedy run `\n{3,}` at the start of `s`. */
  function NewlineRunLength(s: string): (n: nat)
    ensures n <= |s|
    ensures n > 0 ==> MatchesPrefix(NewlineRun, s, n)
    ensures forall m :: n < m <= |s| ==> !Matches(NewlineRun, s[..m])
  {
    var j := ClassRunLength(s, Newline);
    if j >= 3 then j else 0
  }

  function BrTagLength(s: string): (n: nat)
    ensures n <= |s|
    ensures n > 0 ==> MatchesPrefix(BrTag, s, n)
    ensures forall m :: n < m <= |s| ==> !Matches(BrTag, s[..m])
  {
    if |s| < 4 || Lower(s[..3]) != "<br" then
      assert forall m :: 4 <= m <= |s| ==> s[..m][..3] == s[..3];
      0
    else
      var j := Span(s, 3, Space);
      var k := if j < |s| && s[j] == '/' then j + 1 else j;
      var n := if k < |s| && s[k] == '>' then k + 1 else 0;
      BrTagLongest(s, j, k, n);
      n
  }

  lemma BrTagLongest(s: string, j: nat, k: nat, n: nat)
    requires |s| >= 4 && Lower(s[..3]) == "<br"
    requires j == Span(s, 3, Space)
    requires k == (if j < |s| && s[j] == '/' then j + 1 else j)
    requires n == (if k < |s| && s[k] == '>' then k + 1 else 0)
    ensures n <= |s|
    ensures n > 0 ==> Matches(BrTag, s[..n])
    ensures forall m :: n < m <= |s| ==> !Matches(BrTag, s[..m])
  {
    if n > 0 {
      assert s[..n][..3] == s[..3];
      BrTailOfPrefix(s, n);
    }
    forall m | n < m <= |s| ensures !Matches(BrTag, s[..m]) {
      if m >= 4 {
        BrTagNoLonger(s, j, k, n, m);
      }
    }
  }

  /** `BrTail` on a prefix of `s`, read off `s` itself. */
  lemma BrTailOfPrefix(s: string, m: nat)
    requires 4 <= m <= |s|
    ensures BrTail(s[..m]) <==>
      s[m - 1] == '>'
      && (AllIn(s[3..m - 1], Space) || (m >= 5 && s[m - 2] == '/' && AllIn(s[3..m - 2], Space)))
  {
    PrefixSlice(s, m, 3, m - 1);
    if m >= 5 {
      PrefixSlice(s, m, 3, m - 2);
    }
  }

  /** A slice of a prefix is the same slice of the whole. */
  lemma PrefixSlice(s: string, m: nat, a: nat, b: nat)
    requires a <= b <= m <= |s|
    ensures s[..m][a..b] == s[a..b]
  {
    forall i | 0 <= i < b - a ensures s[..m][a..b][i] == s[a..b][i] {
      assert s[..m][a..b][i] == s[..m][a + i] == s[a + i];
    }
  }

  lemma BrTagNoLonger(s: string, j: nat, k: nat, n: nat, m: nat)
    requires |s| >= 4
    requires j == Span(s, 3, Space)
    requires k == (if j < |s| && s[j] == '/' then j + 1 else j)
    requires n == (if k < |s| && s[k] == '>' then k + 1 else 0)
    requires n < m <= |s| && m >= 4
    ensures !BrTail(s[..m])
  {
    BrTailOfPrefix(s, m);
    if s[m - 1] == '>' && AllIn(s[3..m - 1], Space) {
      SpanExact(s, 3, Space, m - 1);
    }
    if m >= 5 && s[m - 1] == '>' && s[m - 2] == '/' && AllIn(s[3..m - 2], Space) {
      SpanExact(s, 3, Space, m - 2);
    }
  }

  function BlockCloseLength(s: string): (n: nat)
    ensures n <= |s|
    ensures n > 0 ==> MatchesPrefix(BlockClose, s, n)
    ensures forall m :: n < m <= |s| ==> !Matches(BlockClose, s[..m])
  {
    var n :=
      if |s| >= 4 && Lower(s[..4]) == "</p>" then 4
      else if |s| >= 6 && Lower(s[..6]) == "</div>" then 6
      else if |s| >= 5 && Lower(s[..5]) == "</md>" then 5
      else 0;
    BlockCloseLongest(s, n);
    n
  }

  lemma BlockCloseLongest(s: string, n: nat)
    requires n == (
      if |s| >= 4 && Lower(s[..4]) == "</p>" then 4
      else if |s| >= 6 && Lower(s[..6]) == "</div>" then 6
      else if |s| >= 5 && Lower(s[..5]) == "</md>" then 5
      else 0)
    ensures forall m :: n < m <= |s| ==> !Matches(BlockClose, s[..m])
  {
    forall m | n < m <= |s| ensures !Matches(BlockClose, s[..m]) {
      if m == 6 && |s| >= 4 {
        assert Lower(s[..6])[2] == Lower(s[..4])[2];
      }
      if m == 5 && |s| >= 4 {
        assert Lower(s[..5])[2] == Lower(s[..4])[2];
      }
      if m == 6 && |s| >= 5 {
        assert Lower(s[..6])[2] == Lower(s[..5])[2];
      }
    }
  }

  function AnyTagLength(s: string): (n: nat)
    ensures n <= |s|
    ensures n > 0 ==> MatchesPrefix(AnyTag, s, n)
    ensures forall m :: n < m <= |s| ==> !Matches(AnyTag, s[..m])
  {
    if |s| >= 2 && s[0] == '<' then
      var j := Span(s, 1, NotGt);
      var n := if j > 1 && j < |s| then j + 1 else 0;
      AnyTagLongest(s, j, n);
      n
    else
      0
  }

  lemma AnyTagLongest(s: string, j: nat, n: nat)
    requires |s| >= 2 && s[0] == '<'
    requires j == Span(s, 1, NotGt)
    requires n == (if j > 1 && j < |s| then j + 1 else 0)
    ensures n > 0 ==> Matches(AnyTag, s[..n])
    ensures forall m :: n < m <= |s| ==> !Matches(AnyTag, s[..m])
  {
    if n > 0 {
      AnyTagOfPrefix(s, n);
    }
    forall m | n < m <= |s| ensures !Matches(AnyTag, s[..m]) {
      if m >= 3 {
        AnyTagNoLonger(s, j, n, m);
      }
    }
  }

  lemma AnyTagNoLonger(s: string, j: nat, n: nat, m: nat)
    requires |s| >= 2 && s[0] == '<'
    requires j == Span(s, 1, NotGt)
    requires n == (if j > 1 && j < |s| then j + 1 else 0)
    requires n < m <= |s| && m >= 3
    ensures !Matches(AnyTag, s[..m])
  {
    AnyTagOfPrefix(s, m);
    if s[m - 1] == '>' && AllIn(s[1..m - 1], NotGt) {
      SpanExact(s, 1, NotGt, m - 1);
    }
  }

  /** The tag pattern on a prefix of `s`, read off `s` itself. */
  lemma AnyTagOfPrefix(s: string, m: nat)
    requires 3 <= m <= |s|
    ensures Matches(AnyTag, s[..m]) <==> s[0] == '<' && s[m - 1] == '>' && AllIn(s[1..m - 1], NotGt)
  {
    PrefixSlice(s, m, 1, m - 1);
  }

  function LiteralLength(x: string, s: string): (n: nat)
    ensures n <= |s|
    ensures n > 0 ==> MatchesPrefix(Literal(x), s, n)
    ensures forall m :: n < m <= |s| ==> !Matches(Literal(x), s[..m])
  {
    if x != "" && |x| <= |s| && s[..|x|] == x then |x| else 0
  }

  /** The match at the start of `s` ends at `n` when the first `n` characters match and no
      longer prefix does. */
  lemma MatchLengthIs(p: Pattern, s: string, n: nat)
    requires 0 < n <= |s| && MatchesPrefix(p, s, n)
    requires forall m :: n < m <= |s| ==> !Matches(p, s[..m])
    ensures MatchLength(p, s) == n
  {
    var k := MatchLength(p, s);
    assert k > 0 ==> MatchesPrefix(p, s, k);
  }

  /** Every match of `p` starts with `c`. */
  ghost predicate MatchesStartWith(p: Pattern, c: char) {
    forall t :: Matches(p, t) ==> t != [] && t[0] == c
  }

  /** A match at the start of `s` starts with the character every match starts with. */
  lemma MatchHead(p: Pattern, s: string, c: char)
    requires MatchesStartWith(p, c)
    ensures MatchLength(p, s) > 0 ==> s != [] && s[0] == c
  {
    var n := MatchLength(p, s);
    if n > 0 {
      assert s[..n][0] == s[0];
    }
  }

  // ---- a string of a pattern's language is matched whole ----

  /** A line-break tag is matched whole: a longer match would need its `>` to be whitespace
      or the `/` before the final `>`. */
  lemma BrTagWhole(t: string, v: string)
    requires Matches(BrTag, t)
    ensures MatchLength(BrTag, t + v) == |t|
  {
    var s := t + v;
    var k := |t|;
    assert s[..k] == t;
    assert s[k - 1] == '>';
    forall m | k < m <= |s| ensures !Matches(BrTag, s[..m]) {
      BrTailOfPrefix(s, m);
      assert s[3..m - 1][k - 4] == '>';
      if m - 2 > k - 1 {
        assert s[3..m - 2][k - 4] == '>';
      }
    }
    MatchLengthIs(BrTag, s, k);
  }

  /** A closing `p`, `div` or `md` tag is matched whole: no longer closing tag agrees with it
      on its third character. */
  lemma BlockCloseWhole(t: string, v: string)
    requires Matches(BlockClose, t)
    ensures MatchLength(BlockClose, t + v) == |t|
  {
    var s := t + v;
    var k := |t|;
    assert s[..k] == t;
    forall m | k < m <= |s| ensures !Matches(BlockClose, s[..m]) {
      assert Lower(s[..m])[2] == LowerChar(s[2]) == Lower(t)[2];
    }
    MatchLengthIs(BlockClose, s, k);
  }

  /** A tag `<...>` is matched whole: a longer match would have a `>` inside. */
  lemma AnyTagWhole(t: string, v: string)
    requires Matches(AnyTag, t)
    ensures MatchLength(AnyTag, t + v) == |t|
  {
    var s := t + v;
    var k := |t|;
    assert s[..k] == t;
    assert s[k - 1] == '>';
    forall m | k < m <= |s| ensures !Matches(AnyTag, s[..m]) {
      AnyTagOfPrefix(s, m);
      assert s[1..m - 1][k - 2] == '>';
    }
    MatchLengthIs(AnyTag, s, k);
  }

  /** An entity is matched whole. */
  lemma LiteralWhole(x: string, v: string)
    requires x != ""
    ensures MatchLength(Literal(x), x + v) == |x|
  {
    assert (x + v)[..|x|] == x;
  }

  /** A run of three or more newlines is matched whole when no newline follows it. */
  lemma NewlineRunWhole(t: string, v: string)
    requires Matches(NewlineRun, t) && (v == [] || v[0] != '\n')
    ensures MatchLength(NewlineRun, t + v) == |t|
  {
    var s := t + v;
    assert s[..|t|] == t;
    RunExact(s, Newline, |t|);
  }

  /** `s.replace(p, rep)` with the global flag: scanning from the left, each match is replaced
      by `rep` and the scan resumes after it; where nothing matches one character is kept. */
  function ReplaceAll(s: string, p: Pattern, rep: string): (r: string)
    ensures forall c :: c in r ==> c in s || c in rep
    ensures s != [] && MatchLength(p, s) == 0 ==> r != [] && r[0] == s[0]
    decreases |s|
  {
    if s == [] then []
    else
      var n := MatchLength(p, s);
      if n > 0 then rep + ReplaceAll(s[n..], p, rep)
      else [s[0]] + ReplaceAll(s[1..], p, rep)
  }

  /** A match at the head of the text is replaced by `rep`, and the scan resumes after it. */
  lemma ReplaceAllHead(t: string, v: string, p: Pattern, rep: string)
    requires 0 < |t| && MatchLength(p, t + v) == |t|
    ensures ReplaceAll(t + v, p, rep) == rep + ReplaceAll(v, p, rep)
  {
    assert (t + v)[|t|..] == v;
  }

  /** Where nothing matches at the head, the first character is kept and the scan moves on. */
  lemma ReplaceAllKept(s: string, p: Pattern, rep: string)
    requires s != [] && MatchLength(p, s) == 0
    ensures ReplaceAll(s, p, rep) == [s[0]] + ReplaceAll(s[1..], p, rep)
  {
  }

  /** The pattern does not match at index `i` of `s`. */
  predicate NoMatchAt(p: Pattern, s: string, i: nat) {
    i <= |s| && MatchLength(p, s[i..]) == 0
  }

  /** The first `k` characters of `s`, at none of whose positions the pattern matches, are
      kept as they are. */
  lemma {:induction false} ReplaceAllKeepHead(s: string, k: nat, p: Pattern, rep: string)
    requires k <= |s|
    requires forall i :: 0 <= i < k ==> NoMatchAt(p, s, i)
    ensures ReplaceAll(s, p, rep) == s[..k] + ReplaceAll(s[k..], p, rep)
    decreases k
  {
    if k > 0 {
      var t := s[1..];
      forall i | 0 <= i < k - 1 ensures NoMatchAt(p, t, i) {
        assert NoMatchAt(p, s, i + 1);
        assert t[i..] == s[i + 1..];
      }
      ReplaceAllKeepHead(t, k - 1, p, rep);
      assert NoMatchAt(p, s, 0);
      KeepStep(s, k, p, rep);
    }
  }

  /** One step of `ReplaceAllKeepHead`: the first character joins the kept head. */
  lemma KeepStep(s: string, k: nat, p: Pattern, rep: string)
    requires 0 < k <= |s| && NoMatchAt(p, s, 0)
    requires ReplaceAll(s[1..], p, rep) == s[1..][..k - 1] + ReplaceAll(s[1..][k - 1..], p, rep)
    ensures ReplaceAll(s, p, rep) == s[..k] + ReplaceAll(s[k..], p, rep)
  {
    assert s[0..] == s;
    ReplaceAllKept(s, p, rep);
    HeadSplit(s, k, ReplaceAll(s[k..], p, rep));
  }

  /** Taking the first character off a text and its first `k` characters off the rest. */
  lemma HeadSplit(s: string, k: nat, x: string)
    requires 0 < k <= |s|
    ensures s[1..][k - 1..] == s[k..]
    ensures [s[0]] + (s[1..][..k - 1] + x) == s[..k] + x
  {
    assert [s[0]] + s[1..][..k - 1] == s[..k];
  }

  /** A head without the character every match starts with is kept as it is. */
  lemma ReplaceAllKeep(u: string, v: string, p: Pattern, rep: string, c: char)
    requires MatchesStartWith(p, c) && c !in u
    ensures ReplaceAll(u + v, p, rep) == u + ReplaceAll(v, p, rep)
  {
    var s := u + v;
    forall i | 0 <= i < |u| ensures NoMatchAt(p, s, i) {
      MatchHead(p, s[i..], c);
      assert s[i..][0] == u[i] && u[i] in u;
    }
    ReplaceAllKeepHead(s, |u|, p, rep);
    assert s[..|u|] == u && s[|u|..] == v;
  }

  /** A match after a head without the character every match starts with: the head is kept,
      the match is replaced by `rep`, and the scan resumes after it. */
  lemma ReplaceAllAt(u: string, t: string, v: string, p: Pattern, rep: string, c: char)
    requires MatchesStartWith(p, c) && c !in u
    requires 0 < |t| && MatchLength(p, t + v) == |t|
    ensures ReplaceAll(u + t + v, p, rep) == u + rep + ReplaceAll(v, p, rep)
  {
    assert u + t + v == u + (t + v);
    ReplaceAllKeep(u, t + v, p, rep, c);
    ReplaceAllHead(t, v, p, rep);
  }

  /** Where the pattern matches nowhere, the text comes back unchanged. */
  lemma {:induction false} ReplaceAllNoMatch(s: string, p: Pattern, rep: string)
    requires forall i :: 0 <= i < |s| ==> MatchLength(p, s[i..]) == 0
    ensures ReplaceAll(s, p, rep) == s
    decreases |s|
  {
    if s != [] {
      assert s[0..] == s;
      forall i | 0 <= i < |s| - 1 ensures MatchLength(p, s[1..][i..]) == 0 {
        assert s[1..][i..] == s[i + 1..];
      }
      ReplaceAllNoMatch(s[1..], p, rep);
    }
  }
}
