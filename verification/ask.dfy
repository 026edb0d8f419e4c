/** The `/ask` handler of backend/main.py: the question check, the choice
    between the retrieval answer and the tool-using agent, the reported
    method, and the mapping of exceptions to answers. The two pipelines are
    function parameters giving an answer or the text of what they raised. */
module Ask {
  import opened Wrappers
  import opened Text

  datatype Method = RAG | MCP

  datatype Debug = Debug(ragAnswer: string, finalMethod: Method)

  /** The JSON reply: the answer, and the debug record when the pipelines ran
      without raising. */
  datatype Reply = Reply(answer: string, debug: Option<Debug>)

  const MissingQuestion: string := "Please provide a question."
  const QuotaPrefix: string := "API Quota Error: "
  const QuotaSuffix: string := ". Please check your Gemini API billing."
  const ErrorPrefix: string := "Error processing your question: "

  /** The phrases that send a question on to the agent. */
  const FallbackPhrases: seq<string> :=
    ["don't know", "no relevant", "cannot be answered", "does not offer", "does not contain"]

  /** The routing test on the lower-cased retrieval answer. */
  predicate NeedsFallback(ragAnswer: string) {
    exists i :: 0 <= i < |FallbackPhrases| && Contains(Lower(ragAnswer), FallbackPhrases[i])
  }

  /** The test behind `final_method`: only the first two phrases. */
  predicate ReportsMcp(ragAnswer: string) {
    Contains(Lower(ragAnswer), FallbackPhrases[0]) || Contains(Lower(ragAnswer), FallbackPhrases[1])
  }

  /** `final_method` as computed on line 55. */
  function FinalMethod(ragAnswer: string): (m: Method)
    ensures m == MCP ==> NeedsFallback(ragAnswer)
    ensures m == MCP <==> ReportsMcp(ragAnswer)
  {
    if ReportsMcp(ragAnswer) then
      assert Contains(Lower(ragAnswer), FallbackPhrases[0]) ==> NeedsFallback(ragAnswer);
      assert Contains(Lower(ragAnswer), FallbackPhrases[1]) ==> NeedsFallback(ragAnswer);
      MCP
    else RAG
  }

  /** The method that actually produced the answer: the agent exactly when
      the routing test sends the question on. */
  function AnsweringMethod(ragAnswer: string): (m: Method)
    ensures m == MCP <==> NeedsFallback(ragAnswer)
  {
    if NeedsFallback(ragAnswer) then MCP else RAG
  }

  /** The exception handler: quota problems are recognised by "quota" in any
      case or by "429". */
  predicate IsQuotaError(message: string) {
    Contains(Lower(message), "quota") || Contains(message, "429")
  }

  function ErrorAnswer(message: string): (r: string)
    ensures IsQuotaError(message) ==>
              && QuotaPrefix <= r && |r| == |QuotaPrefix| + |message| + |QuotaSuffix|
              && r[|QuotaPrefix|..|QuotaPrefix| + |message|] == message
    ensures !IsQuotaError(message) ==> ErrorPrefix <= r && r[|ErrorPrefix|..] == message
  {
    if IsQuotaError(message) then
      var r := QuotaPrefix + message + QuotaSuffix;
      assert r[|QuotaPrefix|..|QuotaPrefix| + |message|] == message;
      r
    else ErrorPrefix + message
  }

  /** The message can be read back from the answer, and the two kinds of
      answer start differently. */
  lemma ErrorAnswerKinds(message: string)
    ensures IsQuotaError(message) <==> QuotaPrefix <= ErrorAnswer(message)
    ensures ErrorAnswer(message) != MissingQuestion
  {
    assert QuotaPrefix[0] == 'A' && ErrorPrefix[0] == 'E' && MissingQuestion[0] == 'P';
    assert ErrorAnswer(message)[0] == 'A' || ErrorAnswer(message)[0] == 'E';
  }

  /** `ask(request)`: `question` is `data.get("question")`, absent when the
      key is missing. */
  function HandleAsk(question: Option<string>, rag: string -> Result<string, string>,
                     mcp: string -> Result<string, string>): (r: Reply)
    ensures question.None? || question == Some("") ==> r == Reply(MissingQuestion, None)
    ensures question.Some? && question.value != "" && rag(question.value).Err? ==>
              r == Reply(ErrorAnswer(rag(question.value).error), None)
    ensures question.Some? && question.value != "" && rag(question.value).Ok? ==>
              var a := rag(question.value).value;
              && (!NeedsFallback(a) ==> r == Reply(a, Some(Debug(a, FinalMethod(a)))))
              && (NeedsFallback(a) && mcp(question.value).Ok? ==>
                    r == Reply(mcp(question.value).value, Some(Debug(a, FinalMethod(a)))))
              && (NeedsFallback(a) && mcp(question.value).Err? ==>
                    r == Reply(ErrorAnswer(mcp(question.value).error), None))
  {
    match question
    case None => Reply(MissingQuestion, None)
    case Some(q) =>
      if q == "" then Reply(MissingQuestion, None)
      else
        match rag(q)
        case Err(e) => Reply(ErrorAnswer(e), None)
        case Ok(a) =>
          if NeedsFallback(a) then
            match mcp(q)
            case Err(e) => Reply(ErrorAnswer(e), None)
            case Ok(m) => Reply(m, Some(Debug(a, FinalMethod(a))))
          else Reply(a, Some(Debug(a, FinalMethod(a))))
  }

  /** Without a question neither pipeline is consulted. */
  lemma NoQuestionNoPipeline(question: Option<string>, rag1: string -> Result<string, string>,
                             mcp1: string -> Result<string, string>, rag2: string -> Result<string, string>,
                             mcp2: string -> Result<string, string>)
    requires question.None? || question == Some("")
    ensures HandleAsk(question, rag1, mcp1) == HandleAsk(question, rag2, mcp2)
    ensures HandleAsk(question, rag1, mcp1).answer == MissingQuestion
  {
  }

  /** `debug.rag_answer` is always the retrieval answer, and the reported
      method says "MCP" only when the agent answered. */
  lemma DebugReportsRetrievalAnswer(q: string, rag: string -> Result<string, string>,
                                    mcp: string -> Result<string, string>)
    requires q != ""
    ensures var r := HandleAsk(Some(q), rag, mcp);
      r.debug.Some? ==> rag(q).Ok? && r.debug.value.ragAnswer == rag(q).value
    ensures var r := HandleAsk(Some(q), rag, mcp);
      r.debug.Some? && r.debug.value.finalMethod == MCP ==> NeedsFallback(rag(q).value) && r.answer == mcp(q).value
  {
  }

  /** `run_rag` and `run_mcp` catch every exception and return it as text
      with a marker in front (backend/agent/rag.py:53-55). */
  function CatchAll(marker: string, outcome: Result<string, string>): (r: string)
    ensures outcome.Ok? ==> r == outcome.value
    ensures outcome.Err? ==> marker <= r && r[|marker|..] == outcome.error
  {
    match outcome
    case Ok(a) => a
    case Err(e) => marker + e
  }

  const RagMarker: string := "[RAG Error] "

  /** Since the retrieval pipeline never raises, its error text is routed
      like any answer: without a fallback phrase it is returned verbatim. */
  lemma RagErrorReturnedVerbatim(q: string, pipeline: string -> Result<string, string>,
                                 mcp: string -> Result<string, string>)
    requires q != "" && pipeline(q).Err?
    requires !NeedsFallback(RagMarker + pipeline(q).error)
    ensures HandleAsk(Some(q), x => Ok(CatchAll(RagMarker, pipeline(x))), mcp).answer == RagMarker + pipeline(q).error
  {
  }

  /** When neither pipeline raises, the exception branch is unreachable and
      the answer is either the retrieval answer or the agent's. */
  lemma NoExceptionWhenPipelinesCatch(q: string, rag: string -> Result<string, string>,
                                      mcp: string -> Result<string, string>)
    requires q != "" && rag(q).Ok? && mcp(q).Ok?
    ensures HandleAsk(Some(q), rag, mcp).debug.Some?
    ensures HandleAsk(Some(q), rag, mcp).answer == (if NeedsFallback(rag(q).value) then mcp(q).value else rag(q).value)
  {
  }

  /** The reported method disagrees with the answering method: an answer
      saying "does not contain" goes to the agent, yet "RAG" is reported. */
  lemma ReportedMethodMisses()
    ensures NeedsFallback(Miss) && !ReportsMcp(Miss)
    ensures FinalMethod(Miss) == RAG && AnsweringMethod(Miss) == MCP
  {
    LowerOfLowerCase(Miss);
    var l := Lower(Miss);
    assert l == Miss;
    assert Miss == FallbackPhrases[4];
    assert Contains(l, FallbackPhrases[4]);
    MissLacksDontKnow();
    MissLacksNoRelevant();
    assert FallbackPhrases[0] == "don't know" && FallbackPhrases[1] == "no relevant";
    assert !ReportsMcp(Miss);
    assert NeedsFallback(Miss);
  }

  const Miss: string := "does not contain"

  /** "does not contain" has no `k`, so it lacks "don't know". */
  lemma MissLacksDontKnow()
    ensures !Contains(Miss, "don't know")
  {
    NoOccurrence(Miss, "don't know", 'k');
  }

  /** "does not contain" has no `v`, so it lacks "no relevant". */
  lemma MissLacksNoRelevant()
    ensures !Contains(Miss, "no relevant")
  {
    NoOccurrence(Miss, "no relevant", 'v');
  }

  /** Text without upper-case ASCII letters is its own lower case. */
  lemma LowerOfLowerCase(s: string)
    requires forall i :: 0 <= i < |s| ==> !('A' <= s[i] <= 'Z')
    ensures Lower(s) == s
  {
  }

  /** A text lacking a character of `sub` does not contain `sub`. */
  lemma NoOccurrence(s: string, sub: string, c: char)
    requires c in sub && c !in s
    ensures !Contains(s, sub)
  {
    ContainsIffOccurs(s, sub);
  }

  /** With the method taken from the routing test, the report always names
      the method that answered. */
  lemma AnsweringMethodFaithful(q: string, rag: string -> Result<string, string>,
                                mcp: string -> Result<string, string>)
    requires q != "" && rag(q).Ok? && mcp(q).Ok?
    ensures var a := rag(q).value;
      && (AnsweringMethod(a) == MCP ==> HandleAsk(Some(q), rag, mcp).answer == mcp(q).value)
      && (AnsweringMethod(a) == RAG ==> HandleAsk(Some(q), rag, mcp).answer == a)
  {
  }
}
