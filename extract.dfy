/** Subject resolution in the paper-extraction endpoint: a request for the
    automatic subject first asks the vision model which subject the page
    shows, and the resolved subject then selects the extraction prompt.
    The model's reply is a parameter; the call that produces it is not
    modelled. */
module Extract {

  import opened Strings

  /** The one-word classification question sent for `"auto"`. */
  const DetectionPrompt: string := "请判断该试卷图片的学科类型，只输出一个词：数学 / 英语 / 未知"

  /** The two prompt files the endpoint can send with the image. */
  datatype Prompt = MathPrompt | EnglishPrompt

  /** The detection question the endpoint sends before extracting, if any:
      only `"auto"` asks. */
  function DetectionQuery(requested: string): (query: Option<string>)
    ensures query.Some? <==> requested == "auto"
    ensures query.Some? ==> query.value == DetectionPrompt
  {
    if requested == "auto" then Some(DetectionPrompt) else None
  }

  /** The subject after detection. For `"auto"`, a reply mentioning 数
      gives `"math"`, else one mentioning 英 gives `"english"`, else the
      default `"math"`; any other request is kept as it is. */
  function ResolveSubject(requested: string, reply: string): (subject: string)
    ensures requested != "auto" ==> subject == requested
    ensures requested == "auto" && '数' in reply ==> subject == "math"
    ensures requested == "auto" && '数' !in reply && '英' in reply ==> subject == "english"
    ensures requested == "auto" && '数' !in reply && '英' !in reply ==> subject == "math"
  {
    if requested == "auto" then
      if '数' in reply then "math"
      else if '英' in reply then "english"
      else "math"
    else requested
  }

  /** `PROMPT_MATH if subject == "math" else PROMPT_ENGLISH`. */
  function ChoosePrompt(subject: string): (prompt: Prompt)
    ensures prompt == MathPrompt <==> subject == "math"
    ensures prompt == EnglishPrompt <==> subject != "math"
  {
    if subject == "math" then MathPrompt else EnglishPrompt
  }

  /** The prompt the extraction call is made with. */
  function PromptFor(requested: string, reply: string): Prompt {
    ChoosePrompt(ResolveSubject(requested, reply))
  }

  /** Automatic detection always lands on one of the two subjects, and on
      English exactly when the reply names English without naming math. */
  lemma AutoResolvesToKnownSubject(reply: string)
    ensures ResolveSubject("auto", reply) == "math" || ResolveSubject("auto", reply) == "english"
    ensures ResolveSubject("auto", reply) == "english" <==> '数' !in reply && '英' in reply
    ensures PromptFor("auto", reply) == EnglishPrompt <==> '数' !in reply && '英' in reply
  {
  }

  /** A request that is not `"auto"` sends no detection question and its
      prompt does not depend on any reply: the math prompt for `"math"`,
      the English prompt for everything else. */
  lemma ExplicitRequestIgnoresReply(requested: string, reply1: string, reply2: string)
    requires requested != "auto"
    ensures DetectionQuery(requested).None?
    ensures PromptFor(requested, reply1) == PromptFor(requested, reply2)
    ensures PromptFor(requested, reply1) == MathPrompt <==> requested == "math"
  {
  }
}
