/**
  Building the request sent to the model: the knowledge base is cut to a fixed
  character budget and placed, with the user's question, into a fixed template.
 */
module Prompt {
  import opened PyStr

  /** The largest number of knowledge-base characters sent with one question. */
  const ContextBudget: nat := 50000

  /** The template text before the context: the persona, the instruction to answer only
      from the sheet (with the fallback phrase) and the header of the context block. */
  const Preamble: string :=
    "너는 구글 시트에 기록된 사내 규정을 안내하는 전문가야. \n"
    + "아래 [지식 베이스]의 내용만 참고해서 답변해줘. 시트에 없는 내용은 '인사팀에 문의하세요'라고 해.\n"
    + "\n"
    + "[지식 베이스]\n"

  /** The template text between the context and the question. */
  const QuestionLabel: string := "\n\n질문: "

  function Min(a: int, b: int): (m: int) { if a <= b then a else b }

  /** `knowledge_base[:50000]`: the longest prefix within the budget. */
  function SafeContext(knowledgeBase: string): (r: string)
    ensures |r| == Min(|knowledgeBase|, ContextBudget)
    ensures r == knowledgeBase[..|r|]
  {
    if |knowledgeBase| <= ContextBudget then knowledgeBase else knowledgeBase[..ContextBudget]
  }

  /** The f-string `full_query`, with the safe context and the question in their slots. */
  function FullQuery(context: string, question: string): (r: string)
    ensures |r| == |Preamble| + |context| + |QuestionLabel| + |question|
    ensures StartsWith(r, Preamble)
    ensures OccursAt(r, context, |Preamble|)
    ensures OccursAt(r, QuestionLabel, |Preamble| + |context|)
    ensures OccursAt(r, question, |r| - |question|)
  {
    var r := Preamble + context + QuestionLabel + question;
    assert r[|Preamble|..|Preamble| + |context|] == context;
    assert r[|Preamble| + |context|..|Preamble| + |context| + |QuestionLabel|] == QuestionLabel;
    assert r[|r| - |question|..] == question;
    r
  }

  /**
    The query for a knowledge base and a question, as sent to the model: the
    instructions, then the first `min(len, 50000)` characters of the knowledge base,
    then the question label, and the question at the end.
   */
  function QueryFor(knowledgeBase: string, question: string): (r: string)
    ensures |r| == |Preamble| + Min(|knowledgeBase|, ContextBudget) + |QuestionLabel| + |question|
    ensures StartsWith(r, Preamble)
    ensures OccursAt(r, knowledgeBase[..Min(|knowledgeBase|, ContextBudget)], |Preamble|)
    ensures OccursAt(r, QuestionLabel, |Preamble| + Min(|knowledgeBase|, ContextBudget))
    ensures OccursAt(r, question, |r| - |question|)
  {
    FullQuery(SafeContext(knowledgeBase), question)
  }

  /**
    The prompt holds the budgeted context and the question verbatim, the context block
    ends before the question label, and the question ends the prompt.
   */
  lemma QueryHoldsContextThenQuestion(knowledgeBase: string, question: string)
    ensures Contains(QueryFor(knowledgeBase, question), SafeContext(knowledgeBase))
    ensures Contains(QueryFor(knowledgeBase, question), question)
    ensures exists i, j :: 0 <= i && i + |SafeContext(knowledgeBase)| <= j
                        && OccursAt(QueryFor(knowledgeBase, question), SafeContext(knowledgeBase), i)
                        && OccursAt(QueryFor(knowledgeBase, question), QuestionLabel + question, j)
  {
    var c := SafeContext(knowledgeBase);
    var r := QueryFor(knowledgeBase, question);
    var j := |Preamble| + |c|;
    assert OccursAt(r, c, |Preamble|);
    assert OccursAt(r, question, |r| - |question|);
    OccursAtConcat(r, QuestionLabel, question, j);
  }

  /** However long the knowledge base, the query's length is bounded by the budget. */
  lemma QueryLengthBounded(knowledgeBase: string, question: string)
    ensures |QueryFor(knowledgeBase, question)| <= |Preamble| + ContextBudget + |QuestionLabel| + |question|
    ensures |knowledgeBase| <= ContextBudget ==> OccursAt(QueryFor(knowledgeBase, question), knowledgeBase, |Preamble|)
  {
  }

  /** Knowing the context's length, the prompt determines both the context and the question. */
  lemma FullQueryInjective(c1: string, q1: string, c2: string, q2: string)
    requires |c1| == |c2| && FullQuery(c1, q1) == FullQuery(c2, q2)
    ensures c1 == c2 && q1 == q2
  {
    var r := FullQuery(c1, q1);
    assert c1 == r[|Preamble|..|Preamble| + |c1|] == c2;
    assert q1 == r[|r| - |q1|..] == q2;
  }
}
