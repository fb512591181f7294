# Piazza TA assistant: retrieval core

This project models, in Dafny, the retrieval core of a small Cloudflare Worker that answers
course questions from a dump of Piazza posts. The worker keeps every post in a key-value store.
For a question `q` it does four things:

- it scores every post by the question words the post contains (`score`);
- it keeps the best ten posts that score above zero (`pickTop`);
- it renders each kept post as a numbered context block for a language model;
- it returns, beside the model's answer, a shortened copy of each kept post.

Post text is HTML. It passes through `stripHtml` before it is scored or shown, and words are
read by `tokenize`.

The modules follow the program's helpers:

| module | models |
|---|---|
| `Wrappers` | `Option`, for fields that may be absent (`x || ""`) |
| `Strings`, `Trimming` | the JavaScript string operations used: `\s`, ASCII `toLowerCase`, `includes`, `join`, `filter(Boolean)`, `${n}` for numbers, `trim` |
| `Rewrite` | global `String.prototype.replace` over the eight regular expressions of `stripHtml` and the `[^a-z0-9_]+` of `tokenize` (longest match at each position, scanning from the left) |
| `Markup` | `stripHtml` |
| `Tokens` | `tokenize`, with its `split(/\s+/)` (`SplitWs`), proved equal to a reference definition (the maximal runs of `[a-z0-9_]`) |
| `Posts` | the post record and the two forms a reply may take (a bare string or an object with a `content`) |
| `Scoring` | `score`: the searchable text, the matching loop and the two bonuses |
| `Ranking` | `pickTop`: pair, filter, stable sort by descending score, cut at `k` |
| `Context` | the context block of a kept post and the shortened copy (`used_posts`) |

The matching loop of `score` and the `extras +=` sequence of the block are methods. Each is
proved equal to a specification function. Everything else in the core is a chain of pure
array and string operations, so it is modelled as functions.

Some behaviour of the source that the proofs make explicit:

- The empty question scores 2 on a post without an empty tag and 3 on a post with one. The
  empty string occurs in every subject, so every post gets the subject bonus, and an empty tag
  adds the tag bonus (next point). The `/ask` handler rejects an empty question (src/index.ts:130-132)
  before it ever scores one.
- An empty tag gives the tag bonus for every question. The tag test asks whether the question
  contains the tag, and every question contains the empty string.
- The tags line of a block is `-` for the tag lists `[]` and `[""]`, and also for `["-"]`.

## Model

| member | source | states |
|---|---|---|
| Markup.StripHtml | src/index.ts:25-36 | the result has no leading or trailing whitespace, no run of three newlines and no `<…>` tag left |
| Markup.StripHtmlEmpty | src/index.ts:25 | the default argument `""` strips to the empty text |
| Markup.LineBreakPass | src/index.ts:27 | a `<br>` tag after text without `<` becomes one newline, and the replacement goes on after the tag |
| Markup.BlockClosePass | src/index.ts:28 | a `</p>`, `</div>` or `</md>` after text without `<` becomes one newline, and the replacement goes on after it |
| Markup.TagPass | src/index.ts:29 | any other tag after text without `<` is deleted, and the replacement goes on after it |
| Markup.EntityPass | src/index.ts:30-33 | an entity after text without `&` becomes its character, and the replacement goes on after it |
| Markup.CollapsePass | src/index.ts:34 | a run of three or more newlines after text without newlines becomes exactly two |
| Markup.CollapseQuiet | src/index.ts:34 | text with no run of three newlines is left unchanged by the collapse |
| Markup.LineBreakBetween | src/index.ts:25-36 | a line-break tag between two pieces of text without `<` and `&` becomes a newline, and the result is then only collapsed and trimmed |
| Markup.AmpersandBetween | src/index.ts:30-36 | `&amp;` between two pieces of text without `<` and `&` becomes `&`, and the other entities and tags leave that text unchanged |
| Markup.LineBreakExample | src/index.ts:25-36 | `stripHtml("a<br>b")` is `"a\nb"`, for any word characters in place of `a` and `b` |
| Markup.AmpersandExample | src/index.ts:25-36 | `stripHtml("a&amp;b")` is `"a&b"`, for any word characters in place of `a` and `b` |
| Markup.StripHtmlPlain | src/index.ts:27-35 | a text without `<` and `&` is only newline-collapsed and trimmed: the other six replacements leave it unchanged |
| Trimming.Trim | src/index.ts:35 | the trimmed text neither starts nor ends with whitespace and is no longer than the input |
| Trimming.TrimIsSlice | src/index.ts:35 | the trimmed text is the input with a whitespace prefix and a whitespace suffix removed |
| Trimming.TrimNoop | src/index.ts:35 | a text that neither starts nor ends with whitespace is left unchanged by the trim |
| Rewrite.ReplaceAllNoMatch | src/index.ts:27-34 | a global replace whose pattern matches nowhere returns the text unchanged |
| Rewrite.ReplaceAll | src/index.ts:27-34 | every character of the result comes from the text or from the replacement, and a text that does not start with a match keeps its first character |
| Rewrite.ReplaceAllHead | src/index.ts:27-34 | a match at the start of the text is replaced, and the replacement goes on after the match |
| Rewrite.ReplaceAllKeep | src/index.ts:27-34 | text free of the first character of every match is kept as it is, and the replacement goes on after it |
| Rewrite.ReplaceAllAt | src/index.ts:27-34 | the first match after such text is replaced, and the replacement goes on after the match |
| Rewrite.BrTagWhole | src/index.ts:27 | a whole `<br>` tag at the start is the match, whatever follows it |
| Rewrite.BlockCloseWhole | src/index.ts:28 | a whole closing tag at the start is the match, whatever follows it |
| Rewrite.AnyTagWhole | src/index.ts:29 | a whole tag at the start is the match, whatever follows it |
| Rewrite.LiteralWhole | src/index.ts:30-33 | an entity at the start is the match, whatever follows it |
| Rewrite.NewlineRunWhole | src/index.ts:34 | a whole run of three or more newlines at the start is the match |
| Rewrite.MatchLength | src/index.ts:27-34 | a match at the start of a text is a string of the pattern's language, and no longer prefix of the text is one; 0 stands for no match |
| Rewrite.BrTagLength | src/index.ts:27 | `<br\s*\/?>` in either case: the match is a line-break tag and no longer prefix is one |
| Rewrite.BlockCloseLength | src/index.ts:28 | `</p>`, `</div>` or `</md>` in either case: the match is one of the three closing tags and no longer prefix is one |
| Rewrite.AnyTagLength | src/index.ts:29 | `<[^>]+>`: the match is `<`, at least one character other than `>`, then `>`, and no longer prefix has that shape |
| Rewrite.LiteralLength | src/index.ts:30-33 | an entity matches exactly when the text starts with it, and nothing longer matches |
| Rewrite.NewlineRunLength | src/index.ts:34 | `\n{3,}`: the match is a run of at least three newlines and takes the whole run |
| Rewrite.ClassRunLength | src/index.ts:41 | the greedy run of `[^a-z0-9_]+`: every character of the run is in the class and the next one is not |
| Tokens.Tokenize | src/index.ts:38-44 | the tokens are exactly the maximal runs of `[a-z0-9_]` of the lower-cased text, left to right; each is non-empty and made only of those characters |
| Tokens.SplitMatchesWords | src/index.ts:41-43 | replacing non-word runs by a space, splitting on whitespace and dropping empty pieces gives the reference words |
| Tokens.SplitWs | src/index.ts:42 | the split has at least one piece, and no piece holds a whitespace character |
| Tokens.SplitWsJoin | src/index.ts:41-42 | on a text whose whitespace is lone plain spaces, as after the `[^a-z0-9_]+` replace, joining the pieces with `" "` gives the text back: the pieces are the text between the spaces |
| Tokens.SplitFromJoin | src/index.ts:42 | joining the pieces of the split, with the piece read so far in front, gives back that piece followed by the rest of the text |
| Tokens.WordsSplit | src/index.ts:41-43 | a character outside `[a-z0-9_]` separates words: the words of the two sides, in order |
| Tokens.TokenizeSplit | src/index.ts:38-44 | the tokens of `a + " " + b` are those of `a` followed by those of `b` |
| Tokens.TokenizeEmpty | src/index.ts:38-44 | the empty question has no tokens |
| Strings.Includes | src/index.ts:87-88 | `includes` is true exactly when the needle occurs at some index |
| Strings.LowerChar | src/index.ts:40 | `toLowerCase` maps an ASCII capital to its lower-case letter (32 code points on) and keeps every other character |
| Strings.JoinEmpty | src/index.ts:175 | joining with a non-empty separator is empty exactly for `[]` and `[""]` |
| Strings.JoinNonEmptyParts | src/index.ts:149-150 | joining non-empty parts is empty exactly when there are none |
| Strings.NonEmpty | src/index.ts:43 | `filter(Boolean)` keeps exactly the non-empty strings, in order, and no more of them than there were |
| Strings.NonEmptyAppend | src/index.ts:43 | `filter(Boolean)` distributes over concatenation |
| Strings.NatToString | src/index.ts:165 | the numeral of `n` is a non-empty run of digits with no leading zero unless `n` is 0 |
| Strings.ParseNatToString | src/index.ts:165 | the numeral of `n` reads back as `n` |
| Posts.EntryForms | src/index.ts:54 | a bare string and an object holding that string give the same text; an object without `content` gives `""` |
| Scoring.TokenSetSplit | src/index.ts:75-78 | the token set of `a + " " + b` is the union of the token sets of `a` and `b` |
| Scoring.JoinTokens | src/index.ts:53-73 | a token of texts joined by spaces is a token of one of the texts, and back |
| Scoring.FollowupTextWords | src/index.ts:66-71 | the words of a follow-up's text are those of its content and of its comments |
| Scoring.FollowupsWords | src/index.ts:65-73 | the words of the follow-ups' text are those of some follow-up |
| Scoring.FullTextWords | src/index.ts:50-78 | the tokens of the searchable text are exactly the words of the subject, the body, a reply or a follow-up |
| Scoring.ScoreCountsPostWords | src/index.ts:48-91 | the score is the number of query positions whose token is a word of some part of the post, plus the bonuses |
| Scoring.SubjectWordCounts | src/index.ts:78-88 | a one-word question that is a word of the subject scores at least 1, on top of the subject bonus |
| Scoring.FirstSubjectWordFinds | src/index.ts:48-91 | the first word of the subject, in any case, as the question scores at least 3 (`"midterm"` against `"Midterm 1 curve"`) |
| Scoring.MatchCount | src/index.ts:81-84 | the matches never exceed the number of query tokens |
| Scoring.MatchCountPositions | src/index.ts:82-83 | the match count is the number of query-token positions whose token the post has: a repeated query word counts once per repetition |
| Scoring.CountMatches | src/index.ts:81-84 | the loop computes that count |
| Scoring.SubjectBonus | src/index.ts:87 | the +2 bonus holds exactly when the lower-cased question occurs in the lower-cased subject |
| Scoring.SomeTagIn | src/index.ts:88 | `some` holds exactly when some lower-cased tag occurs in the lower-cased question |
| Scoring.TagBonus | src/index.ts:88 | the +1 bonus holds exactly when some lower-cased tag occurs in the lower-cased question |
| Scoring.ScoreOf | src/index.ts:48-91 | a score is between the bonuses it earned and the number of query tokens plus 3 |
| Scoring.Score | src/index.ts:48-91 | the method returns the specified score, which lies in `0 ..= tokens + 3` |
| Scoring.SomeTagInEmpty | src/index.ts:88 | against the empty question, exactly an empty tag matches |
| Scoring.EmptyQueryScore | src/index.ts:79-88 | the empty question scores 3 on a post with an empty tag and 2 on every other post |
| Scoring.EmptyTagBonus | src/index.ts:88 | a post with an empty tag gets the tag bonus for every question |
| Scoring.EquivalentPostsScoreAlike | src/index.ts:53-73 | posts that differ only in the form of their replies and comments score the same |
| Ranking.Pair | src/index.ts:98 | the pairing holds each post with its score at its own position, and nothing else |
| Ranking.Positive | src/index.ts:99 | the filter keeps exactly the pairs of positive score |
| Ranking.Insert | src/index.ts:100 | inserting adds exactly the one element |
| Ranking.SortDesc | src/index.ts:100 | the sort is a permutation of its input |
| Ranking.SortDescOrdered | src/index.ts:100 | on a list in input order, the sort gives descending scores with ties in input order, as a stable sort does |
| Ranking.RankLength | src/index.ts:97-101 | the cut keeps `min(k, n)` of the `n` positively scored entries for `k >= 0`, and for negative `k` drops exactly the last `min(-k, n)` of them |
| Ranking.RankShape | src/index.ts:97-101 | for any scores: at most `k` entries, each an input post at its position with its positive score, none twice, ordered best first with ties in input order |
| Ranking.RankLeftOut | src/index.ts:97-101 | a positively scored entry is left out only when `k` entries were kept, and every kept entry comes before it |
| Ranking.RankAllWhenFew | src/index.ts:97-101 | when at most `k` entries score positively, every one of them is kept |
| Ranking.PickTop | src/index.ts:96-103 | at most `k` posts (for non-negative `k`), each from the input with a positive score |
| Ranking.PickTopShape | src/index.ts:96-103 | the kept posts are distinct input positions with positive scores, best first, ties in input order |
| Ranking.PickTopDescending | src/index.ts:100-102 | the scores of the kept posts never increase along the list |
| Ranking.PickTopLeftOut | src/index.ts:96-103 | a left-out post of positive score means `k` posts were kept, each scoring at least as much |
| Ranking.PickTopAllWhenFew | src/index.ts:96-103 | with at most `k` positively scored posts, all of them are kept |
| Context.Prefix | src/index.ts:145 | `slice(0, n)` has length `min(n, len)` and is the start of the text |
| Context.EquivalentPostsSameView | src/index.ts:147-165 | posts that differ only in the form of their replies and comments have the same stripped texts |
| Context.DisplayIsBodyStart | src/index.ts:145 | the 400-character display content is at most 400 long and is the start of the 1200-character body |
| Context.UsedPosts | src/index.ts:206-212 | each used post keeps the post's id, subject, tags and date, with content of at most 400 characters |
| Context.UsedContentIsBodyStart | src/index.ts:209 | the content shown for a used post is the first 400 characters of the body of its context block, or the whole body when that is shorter |
| Context.TagsLineDash | src/index.ts:175 | the tags line is `-` exactly for no tags, one empty tag or the one tag `-` |
| Context.ReplyBulletsEmpty | src/index.ts:147-155 | the replies give no bullets exactly when every stripped reply is empty |
| Context.FollowupNumbered | src/index.ts:157-165 | the follow-up at index `i` begins `Follow-up #`, the numeral of `i + 1`, and `: ` |
| Context.FollowupsTextEmpty | src/index.ts:157-167 | the follow-up section is empty exactly when there are no follow-ups |
| Context.ExtrasOfEmpty | src/index.ts:169-172 | the extras are empty exactly when all three sections are, and otherwise start with a newline |
| Context.BuildExtras | src/index.ts:169-172 | the `+=` sequence builds those extras |
| Context.ExtrasEmpty | src/index.ts:147-172 | a post has no extras exactly when all its stripped replies are empty and it has no follow-ups |
| Context.ContextBlockStart | src/index.ts:144-178 | after `# n. ` the block gives the subject, id and date, the tags line, the `Body:` label, and then the body |
| Context.BlockStart | src/index.ts:174-177 | a block starts with its number, its labels and its body |
| Context.BlockNumbered | src/index.ts:174 | a block begins `# `, its number, and `. ` |
| Context.BlockEndsWithBody | src/index.ts:177 | a block without extras ends with its body |
| Context.BlockEndsWithExtras | src/index.ts:177 | a block with extras ends with a newline followed by the extras |
| Context.EquivalentPostsSameBlock | src/index.ts:144-178 | posts that differ only in the form of their entries give the same block and the same used post |

## Left out

- The HTTP routing, the empty-question check, the empty answer and the error handler of `fetch` (src/index.ts:115-143, 179-205 and 213-221), the `json` helper (src/index.ts:224-232) and the front-end page `frontendHtml` (src/index.ts:235-362) are not part of this model.
- Reading posts from the key-value store (`getAll`, src/index.ts:107-111) is I/O and is not modelled. The posts are a parameter.
- The language-model call and the assembly of its prompt, including the `"\n\n---\n"` join of the blocks, are not modelled. The call is foreign and its answer is not specified.
- scripts/fetch_posts.py (the dump of Piazza into the store) is not part of this model.
- Strings.Lower: `toLowerCase` is modelled for ASCII letters only. Other characters are left unchanged.
- Context.Prefix: JavaScript slices count UTF-16 code units. The model counts Unicode scalar values, so texts outside the Basic Multilingual Plane may be cut at a different place.
- Posts.Post: a missing `answers` list, `content` or `tags` is modelled as the empty list or text. A `null` entry, or an entry that is neither a string nor an object, is not modelled.
- Ranking.PickTop: `k` is an integer with the semantics of `slice(0, k)`, including negative values. The `k = 10` default and the value 10 used by the handler are not separate members. For a negative `k` the model proves only how many entries are kept (`RankLength`) and that the kept ones are ranked before every dropped one (`RankShape`, `RankLeftOut`). The handler never passes a negative `k`.
- Context.ContextBlocks: no lemma speaks about a whole list of blocks at once. Each property is stated on one block, either on `Block` (`BlockStart`, `BlockNumbered`, `BlockEndsWithBody`, `BlockEndsWithExtras`) or on `ContextBlock` (`ContextBlockStart`, `EquivalentPostsSameBlock`), and holds for every element because `ContextBlocks` renders the block of `top[i]` with number `i + 1`.
- The template's literal indentation (five tabs and two spaces before `Tags:`, `Body:` and the body) is reproduced as the template source has it.
