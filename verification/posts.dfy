/** The shape of a post as the worker reads it from its store. */
module Posts {
  import opened Wrappers
  import opened Markup

  /** A reply or a comment, which the source accepts either as a bare string or as an object
      whose `content` may be missing. */
  datatype TextEntry = Plain(text: string) | Obj(content: Option<string>)

  /** A follow-up question with its comments. */
  datatype Followup = Followup(content: Option<string>, comments: seq<TextEntry>)

  /** The replies to a post; a missing list is the empty one. */
  datatype Answers = Answers(instructor: seq<TextEntry>, student: seq<TextEntry>, followups: seq<Followup>)

  /** `PiazzaPost` (src/index.ts:3-15); `kind` is the `type` field. */
  datatype Post = Post(
    id: string,
    subject: string,
    content: string,
    created: string,
    tags: seq<string>,
    kind: string,
    answers: Answers)

  /** `typeof x === "string" ? x : x.content || ""`. */
  function EntryText(e: TextEntry): string {
    match e
    case Plain(s) => s
    case Obj(c) => c.GetOr("")
  }

  /** A bare string and an object holding the same string give the same text, and an object
      without content gives the empty text. */
  lemma EntryForms(s: string)
    ensures EntryText(Plain(s)) == EntryText(Obj(Some(s))) == s
    ensures EntryText(Obj(None)) == ""
  {
  }

  /** The stripped text of every entry, in order. */
  function StrippedTexts(es: seq<TextEntry>): seq<string> {
    seq(|es|, i requires 0 <= i < |es| => StripHtml(EntryText(es[i])))
  }

  /** Two lists of entries that give the same texts, whatever their forms. */
  predicate SameTexts(a: seq<TextEntry>, b: seq<TextEntry>) {
    |a| == |b| && forall i :: 0 <= i < |a| ==> EntryText(a[i]) == EntryText(b[i])
  }

  predicate SameFollowups(a: seq<Followup>, b: seq<Followup>) {
    |a| == |b|
    && forall i :: 0 <= i < |a| ==>
      a[i].content.GetOr("") == b[i].content.GetOr("") && SameTexts(a[i].comments, b[i].comments)
  }

  /** Two posts that differ at most in the forms of their entries (and in their `type`). */
  predicate Equivalent(p: Post, q: Post) {
    p.id == q.id && p.subject == q.subject && p.content == q.content && p.created == q.created
    && p.tags == q.tags
    && SameTexts(p.answers.instructor, q.answers.instructor)
    && SameTexts(p.answers.student, q.answers.student)
    && SameFollowups(p.answers.followups, q.answers.followups)
  }

  lemma StrippedTextsAlike(a: seq<TextEntry>, b: seq<TextEntry>)
    requires SameTexts(a, b)
    ensures StrippedTexts(a) == StrippedTexts(b)
  {
  }
}
