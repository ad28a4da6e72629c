/** The paper page: the subject label shown in the summary card and the
    question count. */
module PaperView {
  import opened Strings

  const MathLabel: string := "数学"
  const EnglishLabel: string := "英语"
  const AutoLabel: string := "自动"

  /** The parsed paper as the page holds it; a field the backend left out
      is `None`. Questions are carried by their ids, the only part of them
      the page's derived values depend on. */
  datatype Paper = Paper(subject: Option<string>, questions: Option<seq<string>>)

  /** `getSubjectLabel`: the display label for a subject value. Case is
      ignored for the English spellings, the Chinese labels map to
      themselves, and any other non-empty value is shown as it is. */
  function SubjectLabel(value: string): (tag: string)
    ensures tag == MathLabel <==> value == [] || Lower(value) == "math" || value == MathLabel
    ensures tag == EnglishLabel <==> Lower(value) == "english" || value == EnglishLabel
    ensures tag == AutoLabel <==> Lower(value) == "auto" || value == AutoLabel
    ensures tag != MathLabel && tag != EnglishLabel && tag != AutoLabel ==> tag == value
  {
    if value == [] then MathLabel
    else
      var normalized := Lower(value);
      if normalized == "math" || value == MathLabel then MathLabel
      else if normalized == "english" || value == EnglishLabel then EnglishLabel
      else if normalized == "auto" then AutoLabel
      else value
  }

  /** Every label is its own label, so relabelling changes nothing. */
  lemma SubjectLabelIdempotent(value: string)
    ensures SubjectLabel(SubjectLabel(value)) == SubjectLabel(value)
  {
    var tag := SubjectLabel(value);
    if tag == MathLabel || tag == EnglishLabel || tag == AutoLabel {
      LowerOfNoCapitals(tag);
    }
  }

  /** `paper?.questions?.length ?? 0`. */
  function QuestionCount(paper: Option<Paper>): (n: nat)
    ensures paper.None? || paper.value.questions.None? ==> n == 0
    ensures paper.Some? && paper.value.questions.Some? ==> n == |paper.value.questions.value|
  {
    match paper
    case None => 0
    case Some(p) => if p.questions.Some? then |p.questions.value| else 0
  }

  /** `paper?.subject || subject`: the paper's own subject when it is a
      non-empty string, the subject chosen in the selector otherwise. */
  function ShownSubject(paper: Option<Paper>, selected: string): (subject: string)
    ensures (paper.Some? && paper.value.subject.Some? && paper.value.subject.value != [])
            ==> subject == paper.value.subject.value
    ensures !(paper.Some? && paper.value.subject.Some? && paper.value.subject.value != [])
            ==> subject == selected
  {
    if paper.Some? && paper.value.subject.Some? && paper.value.subject.value != [] then
      paper.value.subject.value
    else selected
  }
}
