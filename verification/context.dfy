/** The context block each picked post contributes to the model's prompt, and the shortened
    post returned to the caller. */
module Context {
  import opened Wrappers
  import opened Strings
  import opened Markup
  import opened Posts

  /** `s.slice(0, n)`. */
  function Prefix(s: string, n: nat): (r: string)
    ensures |r| == (if |s| < n then |s| else n)
    ensures r <= s
  {
    if |s| < n then s else s[..n]
  }

  // ---- the texts a block is made of ----

  /** A follow-up with its texts stripped. */
  datatype FollowupView = FollowupView(content: string, comments: seq<string>)

  /** What the block of a post is built from: its fields and its texts with the markup
      stripped (`stripHtml` applied to the content, to every reply and to every follow-up and
      comment, an absent content counting as the empty text). */
  datatype PostView = PostView(
    id: string,
    subject: string,
    created: string,
    tags: seq<string>,
    text: string,
    instructor: seq<string>,
    student: seq<string>,
    followups: seq<FollowupView>)

  function ViewFollowup(f: Followup): FollowupView {
    FollowupView(StripHtml(f.content.GetOr("")), StrippedTexts(f.comments))
  }

  function View(p: Post): PostView {
    var fs := p.answers.followups;
    PostView(p.id, p.subject, p.created, p.tags, StripHtml(p.content),
             StrippedTexts(p.answers.instructor), StrippedTexts(p.answers.student),
             seq(|fs|, i requires 0 <= i < |fs| => ViewFollowup(fs[i])))
  }

  /** Posts that differ only in the forms of their entries have the same view. */
  lemma EquivalentPostsSameView(p1: Post, p2: Post)
    requires Equivalent(p1, p2)
    ensures View(p1) == View(p2)
  {
    StrippedTextsAlike(p1.answers.instructor, p2.answers.instructor);
    StrippedTextsAlike(p1.answers.student, p2.answers.student);
    var fs1, fs2 := p1.answers.followups, p2.answers.followups;
    forall j | 0 <= j < |fs1| ensures ViewFollowup(fs1[j]) == ViewFollowup(fs2[j]) {
      StrippedTextsAlike(fs1[j].comments, fs2[j].comments);
    }
  }

  // ---- body and display content ----

  /** The body of a block: the first 1200 characters of the stripped content. */
  function BodyText(text: string): string {
    Prefix(text, 1200)
  }

  /** The `content` of a used post: the first 400 characters of the stripped content. */
  function DisplayContent(text: string): string {
    Prefix(text, 400)
  }

  /** The displayed content is at most 400 characters, and it is the start of the block's
      body: the same text cut shorter. */
  lemma DisplayIsBodyStart(text: string)
    ensures |DisplayContent(text)| <= 400
    ensures |DisplayContent(text)| == (if |BodyText(text)| < 400 then |BodyText(text)| else 400)
    ensures DisplayContent(text) == BodyText(text)[..|DisplayContent(text)|]
  {
    if |text| >= 400 {
      assert BodyText(text)[..400] == text[..400];
    }
  }

  /** The projection of a picked post in the answer. */
  datatype UsedPost = UsedPost(id: string, subject: string, content: string, tags: seq<string>, created: string)

  /** `top.map(p => ({ id, subject, content: stripHtml(p.content).slice(0, 400), tags, created }))`:
      the fields of each post, with its content shortened to at most 400 characters. */
  function UsedPosts(top: seq<Post>): (used: seq<UsedPost>)
    ensures |used| == |top|
    ensures forall i :: 0 <= i < |top| ==>
      used[i].id == top[i].id && used[i].subject == top[i].subject && used[i].tags == top[i].tags
      && used[i].created == top[i].created && |used[i].content| <= 400
  {
    seq(|top|, i requires 0 <= i < |top| =>
      UsedPost(top[i].id, top[i].subject, DisplayContent(StripHtml(top[i].content)), top[i].tags, top[i].created))
  }

  // ---- tags, replies and follow-ups ----

  /** `p.tags?.join(", ") || "-"`. */
  function TagsLine(tags: seq<string>): string {
    var joined := Join(", ", tags);
    if joined == "" then "-" else joined
  }

  /** The tags line is a dash exactly when there are no tags, only an empty tag, or only the
      tag "-" itself. */
  lemma TagsLineDash(tags: seq<string>)
    ensures TagsLine(tags) == "-" <==> tags == [] || tags == [""] || tags == ["-"]
  {
    JoinEmpty(", ", tags);
    if |tags| >= 2 {
      assert |Join(", ", tags)| >= 2;
    }
  }

  /** The non-empty stripped replies joined as a bullet list (`.filter(Boolean).join("\n- ")`). */
  function ReplyBullets(texts: seq<string>): string {
    Join("\n- ", NonEmpty(texts))
  }

  /** The replies give no bullets exactly when every one of them is empty. */
  lemma ReplyBulletsEmpty(texts: seq<string>)
    ensures ReplyBullets(texts) == "" <==> forall i :: 0 <= i < |texts| ==> texts[i] == ""
  {
    JoinNonEmptyParts("\n- ", NonEmpty(texts));
    if NonEmpty(texts) == [] {
      forall i | 0 <= i < |texts| ensures texts[i] == "" {
        assert texts[i] in texts;
      }
    } else {
      var x := NonEmpty(texts)[0];
      assert x in NonEmpty(texts);
    }
  }

  /** A comment line of a follow-up. */
  function CommentLine(c: string): string {
    "    \U{21B3} " + c
  }

  /** The non-empty comments of a follow-up, one per line. */
  function CommentLines(comments: seq<string>): string {
    var cs := NonEmpty(comments);
    Join("\n", seq(|cs|, j requires 0 <= j < |cs| => CommentLine(cs[j])))
  }

  /** What follows the header of a follow-up line: its content, then its comment lines
      below it when there are any. */
  function LineRest(content: string, comments: string): string {
    content + (if comments != "" then "\n" + comments else "")
  }

  /** `Follow-up #${n}: ${content}` with the comment lines below it. */
  function NumberedLine(n: nat, content: string, comments: string): string {
    "Follow-up #" + NatToString(n) + ": " + LineRest(content, comments)
  }

  /** The line of each follow-up, numbered from one in their order. */
  function FollowupLines(fs: seq<FollowupView>): (lines: seq<string>)
    ensures |lines| == |fs|
  {
    seq(|fs|, i requires 0 <= i < |fs| => NumberedLine(i + 1, fs[i].content, CommentLines(fs[i].comments)))
  }

  function FollowupsText(fs: seq<FollowupView>): string {
    Join("\n", FollowupLines(fs))
  }

  /** In `lead + NatToString(n) + sep + rest`, the numeral follows `lead` and `sep` follows
      the numeral. */
  lemma NumeralAfter(lead: string, n: nat, sep: string, rest: string)
    ensures var line := lead + NatToString(n) + sep + rest; var d := NatToString(n);
      && |line| >= |lead| + |d| + |sep|
      && line[..|lead|] == lead
      && line[|lead|..|lead| + |d|] == d
      && line[|lead| + |d|..|lead| + |d| + |sep|] == sep
  {
    var d := NatToString(n);
    var line := lead + d + sep + rest;
    assert line[|lead|..|lead| + |d|] == d;
    assert line[|lead| + |d|..|lead| + |d| + |sep|] == sep;
  }

  /** Follow-ups are numbered from one in their order: the line of the follow-up at index `i`
      starts with "Follow-up #", then the numeral of `i + 1`, then ": ". */
  lemma FollowupNumbered(fs: seq<FollowupView>, i: nat)
    requires i < |fs|
    ensures var line := FollowupLines(fs)[i]; var d := NatToString(i + 1);
      && |line| >= 11 + |d| + 2
      && line[..11] == "Follow-up #"
      && line[11..11 + |d|] == d
      && line[11 + |d|..11 + |d| + 2] == ": "
  {
    NumeralAfter("Follow-up #", i + 1, ": ", LineRest(fs[i].content, CommentLines(fs[i].comments)));
  }

  /** The follow-up section is empty exactly when there are no follow-ups: every line holds at
      least its header. */
  lemma FollowupsTextEmpty(fs: seq<FollowupView>)
    ensures FollowupsText(fs) == "" <==> fs == []
  {
    var lines := FollowupLines(fs);
    forall i | 0 <= i < |lines| ensures lines[i] != "" {
      FollowupNumbered(fs, i);
    }
    JoinNonEmptyParts("\n", lines);
  }

  // ---- extras ----

  /** A titled section, present only when its text is not empty. */
  function Section(title: string, text: string): string {
    if text != "" then title + text else ""
  }

  /** The replies and follow-ups part of a block, from the three joined texts. */
  function ExtrasOf(instructor: string, student: string, followups: string): string {
    Section("\nInstructor replies:\n- ", instructor)
    + Section("\nStudent replies:\n- ", student)
    + Section("\nFollow-ups:\n", followups)
  }

  /** Extras are empty exactly when all three texts are, and otherwise start a new line. */
  lemma ExtrasOfEmpty(instructor: string, student: string, followups: string)
    ensures ExtrasOf(instructor, student, followups) == "" <==> instructor == "" && student == "" && followups == ""
    ensures ExtrasOf(instructor, student, followups) != "" ==> ExtrasOf(instructor, student, followups)[0] == '\n'
  {
    var a := Section("\nInstructor replies:\n- ", instructor);
    var b := Section("\nStudent replies:\n- ", student);
    var c := Section("\nFollow-ups:\n", followups);
    assert a != "" ==> a[0] == '\n';
    assert b != "" ==> b[0] == '\n';
    assert c != "" ==> c[0] == '\n';
    assert (a + b + c) == a + (b + c);
  }

  /** `let extras = ""` grown by `+=`, one section for each non-empty text: the result is empty
      exactly when all three texts are, and otherwise starts a new line. */
  method BuildExtras(instructor: string, student: string, followups: string) returns (extras: string)
    ensures extras == ExtrasOf(instructor, student, followups)
    ensures extras == "" <==> instructor == "" && student == "" && followups == ""
    ensures extras != "" ==> extras[0] == '\n'
  {
    extras := "";
    if instructor != "" {
      extras := extras + ("\nInstructor replies:\n- " + instructor);
    }
    assert extras == Section("\nInstructor replies:\n- ", instructor);
    if student != "" {
      extras := extras + ("\nStudent replies:\n- " + student);
    }
    assert extras == Section("\nInstructor replies:\n- ", instructor) + Section("\nStudent replies:\n- ", student);
    if followups != "" {
      extras := extras + ("\nFollow-ups:\n" + followups);
    }
    ExtrasOfEmpty(instructor, student, followups);
  }

  /** The extras of a post: instructor replies, student replies and follow-ups, in that
      order. */
  function Extras(v: PostView): string {
    ExtrasOf(ReplyBullets(v.instructor), ReplyBullets(v.student), FollowupsText(v.followups))
  }

  /** A post has no extras exactly when all its replies are empty once stripped and it has no
      follow-ups. */
  lemma ExtrasEmpty(v: PostView)
    ensures Extras(v) == "" <==>
      (forall i :: 0 <= i < |v.instructor| ==> v.instructor[i] == "")
      && (forall i :: 0 <= i < |v.student| ==> v.student[i] == "")
      && v.followups == []
  {
    ReplyBulletsEmpty(v.instructor);
    ReplyBulletsEmpty(v.student);
    FollowupsTextEmpty(v.followups);
    ExtrasOfEmpty(ReplyBullets(v.instructor), ReplyBullets(v.student), FollowupsText(v.followups));
  }

  // ---- the block ----

  /** The indentation the template puts before `Tags:`, `Body:` and the body. */
  const Indent: string := "\t\t\t\t\t  "

  /** The part of a block between the numeral and the body: subject, id, date, the tags line
      and the `Body:` label, each indented line as the template indents it. */
  function BlockLabels(v: PostView): string {
    v.subject + " (id: " + v.id + ", date: " + v.created + ")"
    + "\n" + Indent + "Tags: " + TagsLine(v.tags)
    + "\n" + Indent + "Body:\n" + Indent
  }

  /** The extras, after a line break, when there are any. */
  function ExtrasTail(extras: string): string {
    if extras != "" then "\n" + extras else ""
  }

  /** The template of a block: `# n. `, the labels, the body, and the extras after a line
      break when there are any. */
  function Block(n: nat, labels: string, body: string, extras: string): string {
    "# " + NatToString(n) + ". " + (labels + body + ExtrasTail(extras))
  }

  /** The block of the post at index `i` of the picked list, numbered from one. */
  function RenderBlock(v: PostView, i: nat): string {
    Block(i + 1, BlockLabels(v), BodyText(v.text), Extras(v))
  }

  /** The block of a picked post, from its view. */
  function ContextBlock(p: Post, i: nat): string {
    RenderBlock(View(p), i)
  }

  function ContextBlocks(top: seq<Post>): (blocks: seq<string>)
    ensures |blocks| == |top|
  {
    seq(|top|, i requires 0 <= i < |top| => ContextBlock(top[i], i))
  }

  /** A block starts with "# ", then the numeral of its number, then ". ". */
  lemma BlockNumbered(n: nat, labels: string, body: string, extras: string)
    ensures var b := Block(n, labels, body, extras); var d := NatToString(n);
      && |b| >= 2 + |d| + 2
      && b[..2] == "# "
      && b[2..2 + |d|] == d
      && b[2 + |d|..2 + |d| + 2] == ". "
  {
    NumeralAfter("# ", n, ". ", labels + body + ExtrasTail(extras));
  }

  /** After `# n. ` a block gives the subject, the id and the date on its first line, the tags
      on the second, the `Body:` label on the third, and then the body. */
  lemma ContextBlockStart(p: Post, i: nat)
    ensures var head := "# " + NatToString(i + 1) + ". "
        + p.subject + " (id: " + p.id + ", date: " + p.created + ")"
        + "\n" + Indent + "Tags: " + TagsLine(p.tags)
        + "\n" + Indent + "Body:\n" + Indent;
      head + BodyText(StripHtml(p.content)) <= ContextBlock(p, i)
  {
    var v := View(p);
    assert v.subject == p.subject && v.id == p.id && v.created == p.created && v.tags == p.tags;
    assert v.text == StripHtml(p.content);
    var lead := "# " + NatToString(i + 1) + ". ";
    LabelsAfterLead(lead, p.subject, p.id, p.created, TagsLine(p.tags));
    BlockStart(i + 1, BlockLabels(v), BodyText(v.text), Extras(v));
  }

  /** A block starts with its lead, its labels and its body. */
  lemma BlockStart(n: nat, labels: string, body: string, extras: string)
    ensures "# " + NatToString(n) + ". " + labels + body <= Block(n, labels, body, extras)
  {
    var lead := "# " + NatToString(n) + ". ";
    var tail := ExtrasTail(extras);
    assert lead + (labels + body + tail) == (lead + labels + body) + tail;
  }

  /** The labels written after the lead, one piece at a time. */
  lemma LabelsAfterLead(lead: string, subject: string, id: string, created: string, tags: string)
    ensures lead + (subject + " (id: " + id + ", date: " + created + ")"
        + "\n" + Indent + "Tags: " + tags + "\n" + Indent + "Body:\n" + Indent)
      == lead + subject + " (id: " + id + ", date: " + created + ")"
        + "\n" + Indent + "Tags: " + tags + "\n" + Indent + "Body:\n" + Indent
  {
  }

  /** The last characters of `x + t` are those of `t`. */
  lemma SuffixOfAppend(x: string, t: string, e: string)
    requires |e| <= |t| && t[|t| - |e|..] == e
    ensures |e| <= |x + t| && (x + t)[|x + t| - |e|..] == e
  {
    assert (x + t)[|x + t| - |e|..] == t[|t| - |e|..];
  }

  /** A block without extras ends with its body. */
  lemma BlockEndsWithBody(n: nat, labels: string, body: string, extras: string)
    requires extras == ""
    ensures var b := Block(n, labels, body, extras); |b| >= |body| && b[|b| - |body|..] == body
  {
    var front := labels + body;
    assert front + ExtrasTail(extras) == front;
    SuffixOfAppend(labels, body, body);
    SuffixOfAppend("# " + NatToString(n) + ". ", front, body);
  }

  /** A block with extras ends with a line break and the extras, after the body. */
  lemma BlockEndsWithExtras(n: nat, labels: string, body: string, extras: string)
    requires extras != ""
    ensures var b := Block(n, labels, body, extras);
      |b| >= |body| + 1 + |extras| && b[|b| - |extras| - 1..] == "\n" + extras
  {
    var front := labels + body;
    var tail := ExtrasTail(extras);
    SuffixOfAppend(front, tail, tail);
    SuffixOfAppend("# " + NatToString(n) + ". ", front + tail, tail);
  }

  /** The content shown for a used post is the first 400 characters of the body of its block,
      or the whole body when it is shorter. */
  lemma UsedContentIsBodyStart(top: seq<Post>, i: nat)
    requires i < |top|
    ensures var c := UsedPosts(top)[i].content; var body := BodyText(View(top[i]).text);
      |c| == (if |body| < 400 then |body| else 400) && c == body[..|c|]
  {
    var text := View(top[i]).text;
    assert text == StripHtml(top[i].content);
    DisplayIsBodyStart(text);
  }

  /** Two posts that differ only in the forms of their entries give the same block and the
      same used post. */
  lemma EquivalentPostsSameBlock(p1: Post, p2: Post, i: nat)
    requires Equivalent(p1, p2)
    ensures ContextBlock(p1, i) == ContextBlock(p2, i)
    ensures UsedPosts([p1]) == UsedPosts([p2])
  {
    EquivalentPostsSameView(p1, p2);
  }
}
