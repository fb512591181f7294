/** `stripHtml`: the plain text of a post body written in HTML. A fixed pipeline of global
    replacements followed by a trim. */
module Markup {
  import opened Strings
  import opened Rewrite
  import opened Trimming

  /** A `<` at `i` that is followed by a character other than `>`: where `<[^>]+>` starts
      a match if some `>` comes later. */
  predicate OpensTag(s: string, i: int) {
    0 <= i && i + 1 < |s| && s[i] == '<' && s[i + 1] != '>'
  }

  /** No tag is left: no `>` follows a `<` that opens a tag, so that `<[^>]+>` matches
      nowhere (see `NoTagNoMatch`). */
  predicate NoTag(s: string) {
    forall i, j :: 0 <= i < j < |s| && OpensTag(s, i) ==> s[j] != '>'
  }

  /** Three newlines in a row start at `i`. */
  predicate TripleAt(s: string, i: int) {
    0 <= i && i + 2 < |s| && s[i] == '\n' && s[i + 1] == '\n' && s[i + 2] == '\n'
  }

  /** No run of three or more newlines. */
  predicate NoTripleNewline(s: string) {
    forall i :: 0 <= i < |s| ==> !TripleAt(s, i)
  }

  /** The number of newlines `s` starts with. */
  function Lead(s: string): (n: nat)
    ensures n <= |s|
    ensures forall i :: 0 <= i < n ==> s[i] == '\n'
    ensures n < |s| ==> s[n] != '\n'
    decreases |s|
  {
    if s != [] && s[0] == '\n' then 1 + Lead(s[1..]) else 0
  }

  /** `stripHtml(html)`, src/index.ts:25-36. Its result has no surrounding whitespace, no run
      of three newlines and no tag. */
  function StripHtml(html: string := ""): (text: string)
    ensures text == [] || (!IsSpace(text[0]) && !IsSpace(text[|text| - 1]))
    ensures NoTripleNewline(text)
    ensures NoTag(text)
  {
    var s1 := ReplaceAll(html, BrTag, "\n");
    var s2 := ReplaceAll(s1, BlockClose, "\n");
    var s3 := ReplaceAll(s2, AnyTag, "");
    var s4 := ReplaceAll(s3, Literal("&nbsp;"), " ");
    var s5 := ReplaceAll(s4, Literal("&#39;"), "'");
    var s6 := ReplaceAll(s5, Literal("&quot;"), "\"");
    var s7 := ReplaceAll(s6, Literal("&amp;"), "&");
    var s8 := ReplaceAll(s7, NewlineRun, "\n\n");
    AnyTagRemoval(s2);
    NoTagKept(s3, Literal("&nbsp;"), " ");
    NoTagKept(s4, Literal("&#39;"), "'");
    NoTagKept(s5, Literal("&quot;"), "\"");
    NoTagKept(s6, Literal("&amp;"), "&");
    NoTagKept(s7, NewlineRun, "\n\n");
    CollapseNewlines(s7);
    TrimKeepsNoTag(s8);
    TrimKeepsNoTriple(s8);
    Trim(s8)
  }

  /** A missing argument takes the default `""`, and both give the empty text. */
  lemma StripHtmlEmpty()
    ensures StripHtml() == "" && StripHtml("") == ""
  {
  }

  // ---- tags ----

  /** A text without tags is one in which the tag pattern matches at no position. */
  lemma NoTagNoMatch(s: string)
    requires NoTag(s)
    ensures forall i :: 0 <= i < |s| ==> MatchLength(AnyTag, s[i..]) == 0
  {
    forall i | 0 <= i < |s| ensures MatchLength(AnyTag, s[i..]) == 0 {
      if MatchLength(AnyTag, s[i..]) > 0 {
        var j := MatchOpensTag(s, i);
      }
    }
  }

  /** A match of the tag pattern at `i` starts with a `<` that opens a tag and ends at a `>`. */
  lemma MatchOpensTag(s: string, i: nat) returns (j: nat)
    requires i < |s| && MatchLength(AnyTag, s[i..]) > 0
    ensures OpensTag(s, i) && i < j < |s| && s[j] == '>'
  {
    var t := s[i..];
    var n := MatchLength(AnyTag, t);
    assert t[..n][1..n - 1][0] == t[1];
    j := i + n - 1;
    assert t[..n][n - 1] == s[j];
  }

  lemma NoTagSlice(s: string, t: string, a: nat)
    requires NoTag(s) && a + |t| <= |s| && t == s[a..a + |t|]
    ensures NoTag(t)
  {
    forall i, j | 0 <= i < j < |t| && OpensTag(t, i) ensures t[j] != '>' {
      assert OpensTag(s, a + i);
      assert t[j] == s[a + j];
    }
  }

  lemma NoTagSuffix(s: string, a: nat)
    requires NoTag(s) && a <= |s|
    ensures NoTag(s[a..])
  {
    assert s[a..] == s[a..a + |s[a..]|];
    NoTagSlice(s, s[a..], a);
  }

  lemma NoTagPrepend(a: string, x: string)
    requires '<' !in a && NoTag(x)
    ensures NoTag(a + x)
  {
    var t := a + x;
    forall i, j | 0 <= i < j < |t| && OpensTag(t, i) ensures t[j] != '>' {
      assert t[i] == '<';
      if i >= |a| {
        assert OpensTag(x, i - |a|);
        assert t[j] == x[j - |a|];
      }
    }
  }

  lemma NoTagConsLt(x: string)
    requires NoTag(x)
    requires (x != [] && x[0] == '>') || '>' !in x
    ensures NoTag(['<'] + x)
  {
    var t := ['<'] + x;
    forall i, j | 0 <= i < j < |t| && OpensTag(t, i) ensures t[j] != '>' {
      assert t[j] == x[j - 1];
      if i > 0 {
        assert OpensTag(x, i - 1);
      } else {
        assert t[1] == x[0];
      }
    }
  }

  /** In a text without tags, a `<` at the head that is not followed by `>` has no `>` after it. */
  lemma NoTagHeadLt(s: string)
    requires NoTag(s) && s != [] && s[0] == '<' && !(|s| >= 2 && s[1] == '>')
    ensures '>' !in s[1..]
  {
    if |s| >= 2 {
      assert OpensTag(s, 0);
      forall k | 0 <= k < |s| - 1 ensures s[1..][k] != '>' {
        assert s[1..][k] == s[k + 1];
      }
    }
  }

  /** A text with a tag at its head: `<`, something other than `>`, and later a `>`. */
  lemma AnyTagHead(s: string)
    requires |s| >= 2 && s[0] == '<' && s[1] != '>' && '>' in s[1..]
    ensures MatchLength(AnyTag, s) > 0
  {
    var j := Span(s, 1, NotGt);
    var m :| 0 <= m < |s| - 1 && s[1..][m] == '>';
    SpanStops(s, 1, NotGt, m + 1);
    assert AllIn(s[..j + 1][1..j], NotGt) by {
      assert s[..j + 1][1..j] == s[1..j];
    }
    assert Matches(AnyTag, s[..j + 1]);
  }

  /** The third pass, `.replace(/<[^>]+>/g, "")`, leaves no tag. */
  lemma {:induction false} AnyTagRemoval(s: string)
    ensures NoTag(ReplaceAll(s, AnyTag, ""))
    decreases |s|
  {
    if s != [] {
      var n := MatchLength(AnyTag, s);
      if n > 0 {
        AnyTagRemoval(s[n..]);
        assert ReplaceAll(s, AnyTag, "") == ReplaceAll(s[n..], AnyTag, "") by {
          assert "" + ReplaceAll(s[n..], AnyTag, "") == ReplaceAll(s[n..], AnyTag, "");
        }
      } else {
        var x := ReplaceAll(s[1..], AnyTag, "");
        AnyTagRemoval(s[1..]);
        if s[0] == '<' {
          if |s| >= 2 && s[1] != '>' && '>' in s[1..] {
            AnyTagHead(s);
            assert false;
          }
          if |s| >= 2 && s[1] == '>' {
            assert MatchLength(AnyTag, s[1..]) == 0;
          }
          NoTagConsLt(x);
        } else {
          NoTagPrepend([s[0]], x);
        }
      }
    }
  }

  /** A pattern that never matches at a `<` or a `>`. */
  predicate AngleFree(p: Pattern) {
    p.NewlineRun? || (p.Literal? && p.text != [] && p.text[0] != '<' && p.text[0] != '>')
  }

  lemma AngleFreeNoMatch(p: Pattern, t: string)
    requires AngleFree(p) && t != [] && (t[0] == '<' || t[0] == '>')
    ensures MatchLength(p, t) == 0
  {
    var n := MatchLength(p, t);
  }

  /** The entity passes and the newline collapse keep a text free of tags. */
  lemma {:induction false} NoTagKept(s: string, p: Pattern, rep: string)
    requires NoTag(s) && AngleFree(p) && '<' !in rep && '>' !in rep
    ensures NoTag(ReplaceAll(s, p, rep))
    decreases |s|
  {
    if s != [] {
      var n := MatchLength(p, s);
      if n > 0 {
        NoTagSuffix(s, n);
        NoTagKept(s[n..], p, rep);
        NoTagPrepend(rep, ReplaceAll(s[n..], p, rep));
      } else {
        var x := ReplaceAll(s[1..], p, rep);
        NoTagSuffix(s, 1);
        NoTagKept(s[1..], p, rep);
        if s[0] == '<' {
          if |s| >= 2 && s[1] == '>' {
            AngleFreeNoMatch(p, s[1..]);
          } else {
            NoTagHeadLt(s);
          }
          NoTagConsLt(x);
        } else {
          NoTagPrepend([s[0]], x);
        }
      }
    }
  }

  // ---- newlines ----

  lemma NewlineMatchIsLead(s: string)
    ensures MatchLength(NewlineRun, s) == (if Lead(s) >= 3 then Lead(s) else 0)
  {
    assert s[0..Lead(s)] == s[..Lead(s)];
    SpanExact(s, 0, Newline, Lead(s));
  }

  lemma NoTripleCons(c: char, x: string)
    requires NoTripleNewline(x)
    requires c == '\n' ==> Lead(x) <= 1
    ensures NoTripleNewline([c] + x)
  {
    var t := [c] + x;
    LeadTwo(x);
    forall i | 0 <= i < |t| ensures !TripleAt(t, i) {
      if i > 0 && i + 2 < |t| {
        assert t[i] == x[i - 1] && t[i + 1] == x[i] && t[i + 2] == x[i + 1];
        assert !TripleAt(x, i - 1);
      }
    }
  }

  lemma LeadTwo(x: string)
    ensures |x| >= 2 && x[0] == '\n' && x[1] == '\n' ==> Lead(x) >= 2
  {
    if |x| >= 2 {
      assert Lead(x) == if x[0] == '\n' then 1 + Lead(x[1..]) else 0;
    }
  }

  lemma LeadCons(c: char, x: string)
    ensures Lead([c] + x) == (if c == '\n' then 1 + Lead(x) else 0)
  {
    assert ([c] + x)[1..] == x;
  }

  /** The eighth pass, `.replace(/\n{3,}/g, "\n\n")`, leaves no run of three newlines and keeps
      at most two of the leading ones. */
  lemma {:induction false} CollapseNewlines(s: string)
    ensures NoTripleNewline(ReplaceAll(s, NewlineRun, "\n\n"))
    ensures Lead(ReplaceAll(s, NewlineRun, "\n\n")) == (if Lead(s) < 2 then Lead(s) else 2)
    decreases |s|, 1
  {
    if s != [] {
      var n := MatchLength(NewlineRun, s);
      NewlineMatchIsLead(s);
      if n > 0 {
        CollapseRun(s, n);
      } else {
        var x := ReplaceAll(s[1..], NewlineRun, "\n\n");
        assert ReplaceAll(s, NewlineRun, "\n\n") == [s[0]] + x;
        CollapseNewlines(s[1..]);
        LeadCons(s[0], s[1..]);
        assert [s[0]] + s[1..] == s;
        LeadCons(s[0], x);
        NoTripleCons(s[0], x);
      }
    }
  }

  /** The step of `CollapseNewlines` where a run of three or more newlines is replaced. */
  lemma {:induction false} CollapseRun(s: string, n: nat)
    requires s != [] && n == MatchLength(NewlineRun, s) && n > 0 && n == Lead(s)
    ensures NoTripleNewline(ReplaceAll(s, NewlineRun, "\n\n"))
    ensures Lead(ReplaceAll(s, NewlineRun, "\n\n")) == 2
    decreases |s|, 0
  {
    var x := ReplaceAll(s[n..], NewlineRun, "\n\n");
    var y := ['\n'] + x;
    var r := ['\n'] + y;
    assert ReplaceAll(s, NewlineRun, "\n\n") == r by {
      assert "\n\n" + x == r;
    }
    assert Lead(s[n..]) == 0 by {
      if n < |s| {
        assert s[n..][0] == s[n];
      }
    }
    CollapseNewlines(s[n..]);
    LeadCons('\n', x);
    LeadCons('\n', y);
    NoTripleCons('\n', x);
    NoTripleCons('\n', y);
  }

  /** Trimming keeps a text free of tags, since it only cuts off the ends. */
  lemma TrimKeepsNoTag(s: string)
    requires NoTag(s)
    ensures NoTag(Trim(s))
  {
    var t := Trim(s);
    var i := TrimIsSlice(s);
    NoTagSlice(s, t, i);
  }

  /** Trimming keeps a text free of triple newlines. */
  lemma TrimKeepsNoTriple(s: string)
    requires NoTripleNewline(s)
    ensures NoTripleNewline(Trim(s))
  {
    var t := Trim(s);
    var i := TrimIsSlice(s);
    NoTripleSlice(s, t, i);
  }

  lemma NoTripleSlice(s: string, t: string, a: nat)
    requires NoTripleNewline(s) && a + |t| <= |s| && t == s[a..a + |t|]
    ensures NoTripleNewline(t)
  {
    forall m | 0 <= m < |t| ensures !TripleAt(t, m) {
      if 0 <= m && m + 2 < |t| {
        assert t[m] == s[a + m] && t[m + 1] == s[a + m + 1] && t[m + 2] == s[a + m + 2];
        assert !TripleAt(s, a + m);
      }
    }
  }

  // ---- text without markup ----

  lemma PatternHeads()
    ensures MatchesStartWith(BrTag, '<') && MatchesStartWith(BlockClose, '<')
    ensures MatchesStartWith(AnyTag, '<') && MatchesStartWith(NewlineRun, '\n')
  {
    forall t | Matches(BrTag, t) ensures t != [] && t[0] == '<' {
      assert Lower(t[..3])[0] == LowerChar(t[0]);
    }
    forall t | Matches(BlockClose, t) ensures t != [] && t[0] == '<' {
      assert Lower(t)[0] == LowerChar(t[0]);
    }
  }

  /** A text without the first character of any match comes back unchanged. */
  lemma ReplaceAllAbsent(s: string, p: Pattern, rep: string, c: char)
    requires MatchesStartWith(p, c) && c !in s
    ensures ReplaceAll(s, p, rep) == s
  {
    forall i | 0 <= i < |s| ensures MatchLength(p, s[i..]) == 0 {
      var n := MatchLength(p, s[i..]);
    }
    ReplaceAllNoMatch(s, p, rep);
  }

  /** A match of a literal is an occurrence of it. */
  lemma LiteralMatchOccurs(s: string, x: string, i: nat)
    requires i < |s|
    ensures MatchLength(Literal(x), s[i..]) > 0 ==> OccursAt(s, x, i)
  {
    var n := MatchLength(Literal(x), s[i..]);
    if n > 0 {
      assert s[i..][..n] == s[i..i + n];
    }
  }

  /** A text in which a literal does not occur comes back unchanged. */
  lemma ReplaceLiteralAbsent(s: string, x: string, rep: string)
    requires !Includes(s, x)
    ensures ReplaceAll(s, Literal(x), rep) == s
  {
    forall i | 0 <= i < |s| ensures MatchLength(Literal(x), s[i..]) == 0 {
      LiteralMatchOccurs(s, x, i);
    }
    ReplaceAllNoMatch(s, Literal(x), rep);
  }

  /** A literal whose first character occurs in the text only at `i0`, and does not occur
      there, does not occur at all. */
  lemma LiteralOnlyAt(s: string, x: string, i0: int)
    requires x != ""
    requires forall i :: 0 <= i < |s| && s[i] == x[0] ==> i == i0
    requires !OccursAt(s, x, i0)
    ensures !Includes(s, x)
  {
    forall i | OccursAt(s, x, i) ensures i == i0 {
      assert s[i..i + |x|][0] == s[i];
    }
  }

  /** The tag passes leave a text without `<` as it is. */
  lemma TagPassesQuiet(s: string)
    requires '<' !in s
    ensures ReplaceAll(s, BrTag, "\n") == s
    ensures ReplaceAll(s, BlockClose, "\n") == s
    ensures ReplaceAll(s, AnyTag, "") == s
  {
    PatternHeads();
    ReplaceAllAbsent(s, BrTag, "\n", '<');
    ReplaceAllAbsent(s, BlockClose, "\n", '<');
    ReplaceAllAbsent(s, AnyTag, "", '<');
  }

  /** The entity passes leave a text without `&` as it is. */
  lemma EntityPassesQuiet(s: string)
    requires '&' !in s
    ensures ReplaceAll(s, Literal("&nbsp;"), " ") == s
    ensures ReplaceAll(s, Literal("&#39;"), "'") == s
    ensures ReplaceAll(s, Literal("&quot;"), "\"") == s
    ensures ReplaceAll(s, Literal("&amp;"), "&") == s
  {
    LiteralOnlyAt(s, "&nbsp;", -1);
    LiteralOnlyAt(s, "&#39;", -1);
    LiteralOnlyAt(s, "&quot;", -1);
    LiteralOnlyAt(s, "&amp;", -1);
    ReplaceLiteralAbsent(s, "&nbsp;", " ");
    ReplaceLiteralAbsent(s, "&#39;", "'");
    ReplaceLiteralAbsent(s, "&quot;", "\"");
    ReplaceLiteralAbsent(s, "&amp;", "&");
  }

  // ---- what each pass does ----

  lemma LiteralHead(x: string)
    requires x != ""
    ensures MatchesStartWith(Literal(x), x[0])
  {
  }

  /** The first pass, `.replace(/<br\s*\/?>/gi, "\n")`: a line-break tag becomes a newline.
      The text before it, which holds no `<`, is kept, and the scan goes on after the tag. */
  lemma LineBreakPass(u: string, t: string, v: string)
    requires '<' !in u && Matches(BrTag, t)
    ensures ReplaceAll(u + t + v, BrTag, "\n") == u + "\n" + ReplaceAll(v, BrTag, "\n")
  {
    PatternHeads();
    BrTagWhole(t, v);
    ReplaceAllAt(u, t, v, BrTag, "\n", '<');
  }

  /** The second pass, `.replace(/<\/(p|div|md)>/gi, "\n")`: a closing `p`, `div` or `md`
      tag becomes a newline. */
  lemma BlockClosePass(u: string, t: string, v: string)
    requires '<' !in u && Matches(BlockClose, t)
    ensures ReplaceAll(u + t + v, BlockClose, "\n") == u + "\n" + ReplaceAll(v, BlockClose, "\n")
  {
    PatternHeads();
    BlockCloseWhole(t, v);
    ReplaceAllAt(u, t, v, BlockClose, "\n", '<');
  }

  /** The third pass, `.replace(/<[^>]+>/g, "")`: any other tag is removed. */
  lemma TagPass(u: string, t: string, v: string)
    requires '<' !in u && Matches(AnyTag, t)
    ensures ReplaceAll(u + t + v, AnyTag, "") == u + ReplaceAll(v, AnyTag, "")
  {
    PatternHeads();
    AnyTagWhole(t, v);
    ReplaceAllAt(u, t, v, AnyTag, "", '<');
    assert u + "" == u;
  }

  /** The four entity passes: an entity is decoded to its character. */
  lemma EntityPass(u: string, x: string, rep: string, v: string)
    requires x != "" && x[0] == '&' && '&' !in u
    ensures ReplaceAll(u + x + v, Literal(x), rep) == u + rep + ReplaceAll(v, Literal(x), rep)
  {
    LiteralHead(x);
    LiteralWhole(x, v);
    ReplaceAllAt(u, x, v, Literal(x), rep, '&');
  }

  /** The last pass, `.replace(/\n{3,}/g, "\n\n")`: a run of three or more newlines becomes
      two. */
  lemma CollapsePass(u: string, t: string, v: string)
    requires '\n' !in u && Matches(NewlineRun, t) && (v == [] || v[0] != '\n')
    ensures ReplaceAll(u + t + v, NewlineRun, "\n\n") == u + "\n\n" + ReplaceAll(v, NewlineRun, "\n\n")
  {
    PatternHeads();
    NewlineRunWhole(t, v);
    ReplaceAllAt(u, t, v, NewlineRun, "\n\n", '\n');
  }

  /** The newline collapse leaves a text without three newlines in a row as it is. */
  lemma CollapseQuiet(s: string)
    requires NoTripleNewline(s)
    ensures ReplaceAll(s, NewlineRun, "\n\n") == s
  {
    forall i | 0 <= i < |s| ensures MatchLength(NewlineRun, s[i..]) == 0 {
      var n := MatchLength(NewlineRun, s[i..]);
      if n > 0 {
        assert s[i..][..n][0] == s[i] && s[i..][..n][1] == s[i + 1] && s[i..][..n][2] == s[i + 2];
        assert TripleAt(s, i);
      }
    }
    ReplaceAllNoMatch(s, NewlineRun, "\n\n");
  }

  /** Plain text, with no tag and no entity, is only collapsed and trimmed. */
  lemma StripHtmlPlain(s: string)
    requires '<' !in s && '&' !in s
    ensures StripHtml(s) == Trim(ReplaceAll(s, NewlineRun, "\n\n"))
  {
    TagPassesQuiet(s);
    EntityPassesQuiet(s);
  }

  /** When the line breaks leave no `<` and no `&`, the later tag and entity passes change
      nothing and only the newline runs are collapsed before the trim. */
  lemma StripHtmlAfterBreaks(html: string)
    requires '<' !in ReplaceAll(html, BrTag, "\n") && '&' !in ReplaceAll(html, BrTag, "\n")
    ensures StripHtml(html) == Trim(ReplaceAll(ReplaceAll(html, BrTag, "\n"), NewlineRun, "\n\n"))
  {
    var s1 := ReplaceAll(html, BrTag, "\n");
    TagPassesQuiet(s1);
    EntityPassesQuiet(s1);
  }

  /** A line break tag between two pieces of plain text becomes a newline. */
  lemma LineBreakBetween(u: string, t: string, v: string)
    requires Matches(BrTag, t)
    requires '<' !in u && '&' !in u && '<' !in v && '&' !in v
    ensures StripHtml(u + t + v) == Trim(ReplaceAll(u + "\n" + v, NewlineRun, "\n\n"))
  {
    LineBreakPass(u, t, v);
    PatternHeads();
    ReplaceAllAbsent(v, BrTag, "\n", '<');
    StripHtmlAfterBreaks(u + t + v);
  }

  /** `&amp;` between two pieces of plain text is decoded to `&`, and only after the other
      entities have been looked for, so that `&amp;quot;` would give `&quot;`. */
  lemma AmpersandBetween(u: string, v: string)
    requires '<' !in u && '&' !in u && '<' !in v && '&' !in v
    ensures StripHtml(u + "&amp;" + v) == Trim(ReplaceAll(u + "&" + v, NewlineRun, "\n\n"))
  {
    var h := u + "&amp;" + v;
    TagPassesQuiet(h);
    OtherEntitiesAbsent(u, v);
    ReplaceLiteralAbsent(h, "&nbsp;", " ");
    ReplaceLiteralAbsent(h, "&#39;", "'");
    ReplaceLiteralAbsent(h, "&quot;", "\"");
    EntityPass(u, "&amp;", "&", v);
    LiteralHead("&amp;");
    ReplaceAllAbsent(v, Literal("&amp;"), "&", '&');
  }

  /** The only `&` of `u + "&amp;" + v` starts none of the other three entities. */
  lemma OtherEntitiesAbsent(u: string, v: string)
    requires '&' !in u && '&' !in v
    ensures var h := u + "&amp;" + v;
      !Includes(h, "&nbsp;") && !Includes(h, "&#39;") && !Includes(h, "&quot;")
  {
    var h := u + "&amp;" + v;
    var k := |u|;
    assert h[k + 1] == 'a';
    forall i | 0 <= i < |h| && i != k ensures h[i] != '&' {
      if i < k { assert h[i] == u[i]; }
      else if i > k + 4 { assert h[i] == v[i - k - 5]; }
      else { assert h[i] == "&amp;"[i - k]; }
    }
    LiteralOnlyAt(h, "&nbsp;", k);
    LiteralOnlyAt(h, "&#39;", k);
    LiteralOnlyAt(h, "&quot;", k);
  }

  /** Text with no run of three newlines and no space at either end is left as it is by the
      last two steps. */
  lemma FinishQuiet(s: string)
    requires NoTripleNewline(s)
    requires s == [] || (!IsSpace(s[0]) && !IsSpace(s[|s| - 1]))
    ensures Trim(ReplaceAll(s, NewlineRun, "\n\n")) == s
  {
    CollapseQuiet(s);
    TrimNoop(s);
  }

  /** The plain `<br>` is a line break tag. */
  lemma PlainBreak()
    ensures Matches(BrTag, "<br>")
  {
    var t := "<br>";
    assert Lower(t[..3]) == "<br" && t[3..|t| - 1] == [];
  }

  /** `stripHtml("a<br>b")` is `"a\nb"`, for any two letters in place of `a` and `b`. */
  lemma LineBreakExample(a: char, b: char)
    requires IsWordChar(a) && IsWordChar(b)
    ensures StripHtml([a] + "<br>" + [b]) == [a, '\n', b]
  {
    var s := [a] + "\n" + [b];
    assert s == [a, '\n', b];
    Finished(s);
    PlainBreak();
    LineBreakBetween([a], "<br>", [b]);
  }

  /** `stripHtml("a&amp;b")` is `"a&b"`, for any two letters in place of `a` and `b`. */
  lemma AmpersandExample(a: char, b: char)
    requires IsWordChar(a) && IsWordChar(b)
    ensures StripHtml([a] + "&amp;" + [b]) == [a, '&', b]
  {
    var s := [a] + "&" + [b];
    assert s == [a, '&', b];
    Finished(s);
    AmpersandBetween([a], [b]);
  }

  /** Three characters, the outer two word characters, are left as they are by the last
      two steps. */
  lemma Finished(s: string)
    requires |s| == 3 && IsWordChar(s[0]) && IsWordChar(s[2])
    ensures Trim(ReplaceAll(s, NewlineRun, "\n\n")) == s
  {
    assert NoTripleNewline(s);
    FinishQuiet(s);
  }
}
