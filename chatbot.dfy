/** The hybrid legal chatbot `legal_chatbot` and its `KNOWLEDGE_BASE`
    (app.py:163-193): a query that contains a knowledge-base key, in any
    letter case, gets that key's canned answer, the first key in table
    order winning; any other query goes to the model, and three fixed
    messages cover a blank or echoing answer, a failing model and a missing
    one. */
module Chatbot {
  import opened Wrappers
  import opened Text
  import opened Flan

  const TenantRights := "tenant rights"
  const Termination := "termination"
  const Salary := "salary"
  const Nda := "nda"

  /** The triple-quoted answer of app.py:164-171, one line at a time; it
      opens and ends with a line break. */
  const TenantRightsAnswer :=
    "\n"
    + "As a tenant, you generally have the right to:\n"
    + "- Live in a safe and habitable property.\n"
    + "- Have your security deposit returned according to law.\n"
    + "- Receive proper notice before eviction.\n"
    + "- Request repairs and maintenance.\n"
    + "- Enjoy privacy and quiet enjoyment.\n"
    + "Check local laws for specifics.\n"
  const TerminationAnswer :=
    "An employer can terminate your employment according to your contract or local labor laws."
  const SalaryAnswer :=
    "You have the right to receive your salary as per your contract and applicable labor laws."
  const NdaAnswer := "Non-disclosure agreements prevent sharing confidential company info."

  /** `KNOWLEDGE_BASE` in its iteration order. */
  const KnowledgeBase: seq<(string, string)> :=
    [(TenantRights, TenantRightsAnswer), (Termination, TerminationAnswer),
     (Salary, SalaryAnswer), (Nda, NdaAnswer)]

  const AnswerPrompt := "You are a legal assistant. Answer this question safely in simple language:\n\nQuestion: "

  const NotConfident := "⚠️ Cannot provide a confident answer. Please consult a legal professional."
  const ModelFailed := "⚠️ Flan-T5 failed. Please consult a professional."
  const NoModel := "⚠️ No AI available. Please consult a professional."

  /** The index of the first entry from `i` on whose key occurs in
      `queryLower`. */
  function FirstMatchFrom(kb: seq<(string, string)>, queryLower: string, i: nat): (r: Option<nat>)
    requires i <= |kb|
    ensures r.Some? ==> i <= r.value < |kb| && Contains(queryLower, kb[r.value].0)
                        && forall j :: i <= j < r.value ==> !Contains(queryLower, kb[j].0)
    ensures r.None? ==> forall j :: i <= j < |kb| ==> !Contains(queryLower, kb[j].0)
    decreases |kb| - i
  {
    if i == |kb| then None
    else if Contains(queryLower, kb[i].0) then Some(i)
    else FirstMatchFrom(kb, queryLower, i + 1)
  }

  /** The index of the first entry whose key occurs in `queryLower`. */
  function FirstMatch(kb: seq<(string, string)>, queryLower: string): (r: Option<nat>)
    ensures r.Some? ==> r.value < |kb| && Contains(queryLower, kb[r.value].0)
                        && forall j :: 0 <= j < r.value ==> !Contains(queryLower, kb[j].0)
    ensures r.None? ==> forall j :: 0 <= j < |kb| ==> !Contains(queryLower, kb[j].0)
  {
    FirstMatchFrom(kb, queryLower, 0)
  }

  /** What the chatbot says when no key matches (app.py:183-193). */
  function ModelAnswer(pipeline: Pipeline, query: string): string
  {
    match pipeline
    case Unavailable => NoModel
    case Loaded(run) =>
      match run(AnswerPrompt + query)
      case Raised => ModelFailed
      case Generated(text) =>
        var answer := Strip(text);
        if answer == [] || Lower(answer) == Lower(query) then NotConfident else answer
  }

  /** The chatbot's answer to `query`. */
  function Answer(query: string, pipeline: Pipeline): string
  {
    match FirstMatch(KnowledgeBase, Lower(query))
    case Some(i) => KnowledgeBase[i].1
    case None => ModelAnswer(pipeline, query)
  }

  /** `legal_chatbot(query)`. */
  method LegalChatbot(query: string, pipeline: Pipeline) returns (answer: string)
    ensures answer == Answer(query, pipeline)
  {
    var queryLower := Lower(query);
    for i := 0 to |KnowledgeBase|
      invariant FirstMatch(KnowledgeBase, queryLower) == FirstMatchFrom(KnowledgeBase, queryLower, i)
    {
      if Contains(queryLower, KnowledgeBase[i].0) {
        return KnowledgeBase[i].1;
      }
    }
    if pipeline.Loaded? {
      var response := pipeline.run(AnswerPrompt + query);
      if response.Raised? {
        return ModelFailed;
      }
      answer := Strip(response.text);
      if answer == [] || Lower(answer) == Lower(query) {
        return NotConfident;
      }
      return answer;
    }
    return NoModel;
  }

  /** The first entry whose key occurs is the one found: an entry is the
      first match exactly when its key occurs and no earlier key does. */
  lemma FirstMatchIs(kb: seq<(string, string)>, queryLower: string, i: nat)
    requires i < |kb|
    ensures FirstMatch(kb, queryLower) == Some(i)
        <==> Contains(queryLower, kb[i].0) && forall j :: 0 <= j < i ==> !Contains(queryLower, kb[j].0)
  {
    var r := FirstMatch(kb, queryLower);
    if Contains(queryLower, kb[i].0) && forall j :: 0 <= j < i ==> !Contains(queryLower, kb[j].0) {
    }
  }

  /** A query that contains a key, in any letter case, with no earlier key
      in it, gets that key's answer, whatever the state of the model. */
  lemma KnowledgeBaseFirst(query: string, pipeline: Pipeline, i: nat)
    requires i < |KnowledgeBase|
    requires Contains(Lower(query), KnowledgeBase[i].0)
    requires forall j :: 0 <= j < i ==> !Contains(Lower(query), KnowledgeBase[j].0)
    ensures Answer(query, pipeline) == KnowledgeBase[i].1
  {
    FirstMatchIs(KnowledgeBase, Lower(query), i);
  }

  /** The model is consulted only when no key occurs in the query. */
  lemma ModelOnlyWithoutMatch(query: string, pipeline: Pipeline)
    requires forall j :: 0 <= j < |KnowledgeBase| ==> !Contains(Lower(query), KnowledgeBase[j].0)
    ensures Answer(query, pipeline) == ModelAnswer(pipeline, query)
  {
  }

  /** When no key matches, the answer is one of the three fixed messages or
      the model's stripped, non-empty answer, which never repeats the query
      up to letter case. */
  lemma ModelAnswerKinds(pipeline: Pipeline, query: string)
    ensures var a := ModelAnswer(pipeline, query);
      a == NotConfident || a == ModelFailed || a == NoModel
      || (pipeline.Loaded? && pipeline.run(AnswerPrompt + query).Generated?
          && a == Strip(pipeline.run(AnswerPrompt + query).text)
          && a != [] && Lower(a) != Lower(query))
    ensures pipeline == Unavailable ==> ModelAnswer(pipeline, query) == NoModel
  {
  }

  /** For a query with no key in it, each way the model can let the user
      down has its own reply: no model gives NoModel, a raised error gives
      ModelFailed, and a blank answer or one that repeats the query up to
      letter case gives NotConfident; any other answer is returned stripped. */
  lemma NoMatchReplies(query: string, pipeline: Pipeline)
    requires forall j :: 0 <= j < |KnowledgeBase| ==> !Contains(Lower(query), KnowledgeBase[j].0)
    ensures pipeline == Unavailable ==> Answer(query, pipeline) == NoModel
    ensures pipeline.Loaded? && pipeline.run(AnswerPrompt + query) == Raised
            ==> Answer(query, pipeline) == ModelFailed
    ensures pipeline.Loaded? && pipeline.run(AnswerPrompt + query).Generated?
            && (Strip(pipeline.run(AnswerPrompt + query).text) == []
                || Lower(Strip(pipeline.run(AnswerPrompt + query).text)) == Lower(query))
            ==> Answer(query, pipeline) == NotConfident
    ensures pipeline.Loaded? && pipeline.run(AnswerPrompt + query).Generated?
            && Strip(pipeline.run(AnswerPrompt + query).text) != []
            && Lower(Strip(pipeline.run(AnswerPrompt + query).text)) != Lower(query)
            ==> Answer(query, pipeline) == Strip(pipeline.run(AnswerPrompt + query).text)
  {
    ModelOnlyWithoutMatch(query, pipeline);
  }

  /** The three fallback messages are distinct. */
  lemma FallbacksDistinct()
    ensures NotConfident != ModelFailed && NotConfident != NoModel && ModelFailed != NoModel
  {
    assert |NotConfident| == 74;
    assert |ModelFailed| == 49;
    assert |NoModel| == 50;
  }

  /** Every answer in the knowledge base is non-empty. */
  lemma KnowledgeBaseAnswersNonEmpty()
    ensures forall j :: 0 <= j < |KnowledgeBase| ==> KnowledgeBase[j].1 != []
  {
    assert |TenantRightsAnswer| > 0;
    assert |TerminationAnswer| > 0;
    assert |SalaryAnswer| > 0;
    assert |NdaAnswer| > 0;
  }

  /** The chatbot always says something. */
  lemma AnswerNonEmpty(query: string, pipeline: Pipeline)
    ensures Answer(query, pipeline) != []
  {
    match FirstMatch(KnowledgeBase, Lower(query))
    case Some(i) =>
      KnowledgeBaseAnswersNonEmpty();
    case None =>
      ModelAnswerKinds(pipeline, query);
      FallbacksDistinct();
  }

  // ---------------------------------------------------------------------
  // Examples.  Literal texts are handled in pieces of a few dozen
  // characters, one fact per lemma.
  // ---------------------------------------------------------------------

  /** Asking about rights "as a tenant" does not contain the key
      "tenant rights", so the canned tenant answer is not given: the query
      goes to the model, and without one the answer is the no-model
      message. */
  lemma TenantQuestionMissesKey(pipeline: Pipeline)
    ensures Answer("What are my rights as a tenant?", pipeline)
         == ModelAnswer(pipeline, "What are my rights as a tenant?")
    ensures Answer("What are my rights as a tenant?", Unavailable) == NoModel
  {
    var query := "What are my rights as a tenant?";
    TenantQuestionLowered();
    TenantQuestionNoTenantRights();
    TenantQuestionNoOtherKey();
    NoKeyMeansModel(query, pipeline);
    NoKeyMeansModel(query, Unavailable);
  }

  /** A query holding none of the four keys goes to the model. */
  lemma NoKeyMeansModel(query: string, pipeline: Pipeline)
    requires !Contains(Lower(query), TenantRights) && !Contains(Lower(query), Termination)
    requires !Contains(Lower(query), Salary) && !Contains(Lower(query), Nda)
    ensures Answer(query, pipeline) == ModelAnswer(pipeline, query)
  {
    forall j | 0 <= j < |KnowledgeBase|
      ensures !Contains(Lower(query), KnowledgeBase[j].0)
    {
      assert KnowledgeBase[j].0 in [TenantRights, Termination, Salary, Nda];
    }
    ModelOnlyWithoutMatch(query, pipeline);
  }

  lemma TenantQuestionLowered()
    ensures Lower("What are my rights as a tenant?") == "what are my " + "rights as a tenant?"
  {
    var x, y := "What are my ", "rights as a tenant?";
    assert "What are my rights as a tenant?" == x + y;
    LowerAppend(x, y);
    TenantQuestionFrontLower();
    TenantQuestionBackLower();
  }

  lemma TenantQuestionFrontLower()
    ensures Lower("What are my ") == "what are my "
  {
    var s, t := "What are my ", "what are my ";
    forall i | 0 <= i < |s| ensures Lower(s)[i] == t[i] {
    }
  }

  lemma TenantQuestionBackLower()
    ensures Lower("rights as a tenant?") == "rights as a tenant?"
  {
    assert NoUpper("rights as a tenant?");
    LowerOfLower("rights as a tenant?");
  }

  lemma TenantQuestionNoTenantRights()
    ensures !Contains("what are my " + "rights as a tenant?", TenantRights)
  {
    var t := TenantRights;
    assert "what are my " + "rights as a tenant?" == "wha" + ("t are my righ" + "ts as a tenant?");
    assert t[0] == 't' && 't' !in "wha";
    SkipFront("wha", "t are my righ" + "ts as a tenant?", t);
    TenantQuestionMiddleNoTenantRights();
  }

  lemma TenantQuestionMiddleNoTenantRights()
    ensures !Contains("t are my righ" + "ts as a tenant?", TenantRights)
  {
    var t := TenantRights;
    assert t[..2] == "te";
    assert "t are my righ" + "ts as a tenant?" == "t " + "are my righ" + "ts as a tenant?";
    SkipMismatch("t ", "are my righ", "ts as a tenant?", t, 1);
    TenantQuestionTailNoTenantRights();
  }

  lemma TenantQuestionTailNoTenantRights()
    ensures !Contains("ts as a tenant?", TenantRights)
  {
    var t := TenantRights;
    assert t[..2] == "te";
    assert "ts as a tenant?" == "ts" + " as a " + "tenant?";
    SkipMismatch("ts", " as a ", "tenant?", t, 1);
    ShorterNotContains("tenant?", t);
  }

  lemma TenantQuestionNoOtherKey()
    ensures !Contains("what are my " + "rights as a tenant?", Termination)
    ensures !Contains("what are my " + "rights as a tenant?", Salary)
    ensures !Contains("what are my " + "rights as a tenant?", Nda)
  {
    var lowered := "what are my " + "rights as a tenant?";
    TenantQuestionMissingChars();
    MissingCharNotContains(lowered, Termination, 'o');
    MissingCharNotContains(lowered, Salary, 'l');
    MissingCharNotContains(lowered, Nda, 'd');
  }

  lemma TenantQuestionMissingChars()
    ensures 'o' in Termination && 'l' in Salary && 'd' in Nda
    ensures forall c :: c in "what are my " + "rights as a tenant?" && (c == 'o' || c == 'l' || c == 'd') ==> false
  {
    assert 'o' !in "what are my " && 'o' !in "rights as a tenant?";
    assert 'l' !in "what are my " && 'l' !in "rights as a tenant?";
    assert 'd' !in "what are my " && 'd' !in "rights as a tenant?";
  }

  /** A query that mentions both salary and termination gets the
      termination answer: "termination" comes before "salary" in the
      knowledge base, and the first key found wins, whatever the model. */
  lemma FirstKeyInTableOrderWins(pipeline: Pipeline)
    ensures Contains(Lower("Is salary withheld on termination?"), Salary)
    ensures Answer("Is salary withheld on termination?", pipeline) == TerminationAnswer
  {
    var query := "Is salary withheld on termination?";
    SalaryQuestionLowered();
    SalaryQuestionNoTenantRights();
    SalaryQuestionHasTermination();
    SalaryQuestionHasSalary();
    assert KnowledgeBase[0].0 == TenantRights && KnowledgeBase[1] == (Termination, TerminationAnswer);
    KnowledgeBaseFirst(query, pipeline, 1);
  }

  lemma SalaryQuestionLowered()
    ensures Lower("Is salary withheld on termination?") == "is salary withheld on " + "termination?"
  {
    var x, y := "Is salary withheld on ", "termination?";
    assert "Is salary withheld on termination?" == x + y;
    LowerAppend(x, y);
    SalaryQuestionFrontLower();
    assert NoUpper(y);
    LowerOfLower(y);
  }

  lemma SalaryQuestionFrontLower()
    ensures Lower("Is salary withheld on ") == "is salary withheld on "
  {
    var s, t := "Is salary withheld on ", "is salary withheld on ";
    forall i | 0 <= i < |s| ensures Lower(s)[i] == t[i] {
    }
  }

  lemma SalaryQuestionNoTenantRights()
    ensures !Contains("is salary withheld on " + "termination?", TenantRights)
  {
    assert 'g' in TenantRights;
    assert 'g' !in "is salary withheld on " && 'g' !in "termination?";
    MissingCharNotContains("is salary withheld on " + "termination?", TenantRights, 'g');
  }

  lemma SalaryQuestionHasTermination()
    ensures Contains("is salary withheld on " + "termination?", Termination)
  {
    assert "termination?" == Termination + "?";
    StartsWithContains(Termination + "?", Termination);
    ContainsAppend("is salary withheld on ", "termination?", Termination);
  }

  lemma SalaryQuestionHasSalary()
    ensures Contains("is salary withheld on " + "termination?", Salary)
  {
    var rest := " withheld on " + "termination?";
    assert "is salary withheld on " + "termination?" == "is " + (Salary + rest);
    StartsWithContains(Salary + rest, Salary);
    ContainsAppend("is ", Salary + rest, Salary);
  }
}
