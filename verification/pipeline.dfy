/** One pass of the app: extract the upload's text, retrieve the relevant
    chunks for the question, build the prompt, and clean the model's output.
    The vector store and the language model are parameters: `search` stands
    for `similarity_search_with_score(question, k=7)` and `generate` for the
    greedy text-generation call, whose output starts with the prompt when the
    model echoes it. */

module Pipeline {
  import opened Wrappers
  import opened Strings
  import opened Extraction
  import opened Retrieval
  import opened AnswerCleanup

  // ---------------------------------------------------------------------------
  // The prompt
  // ---------------------------------------------------------------------------

  /** The fixed instructions that open every prompt. */
  const Instructions: string :=
    "You are a helpful and precise assistant. Answer the question using only the content from the document context below.\n"
    + "\n"
    + "Strictly adhere to the following rules:\n"
    + "- Do not include outside knowledge.\n"
    + "- Do not guess, invent examples, or hallucinate information.\n"
    + "- Only rephrase or summarize what is explicitly and clearly stated in the document.\n"
    + "- If the document does not contain sufficient information or a definition for the term, respond with: \"The document does not provide a definition for this.\"\n"
    + "- Provide a complete, concise, and direct answer.\n"
    + "- Do not generate any additional questions, conversational filler, or unrelated information after your answer.\n"
    + "- End your answer clearly and stop."

  /** What separates the instructions from the context. */
  const ContextLabel: string := "\n\nDocument Context:\n"

  /** What separates the context from the question. */
  const QuestionLabel: string := "\n\nQuestion: "

  /** The cue the prompt ends with. */
  const AnswerCue: string := "\n\nAnswer:"

  /** The length the template adds to its three fields. */
  const TemplateLength: nat := 1 + |ContextLabel| + |QuestionLabel| + |AnswerCue|

  /** The prompt template of test_app.py lines 70-87, filled in. */
  function Prompt(instructions: string, context: string, question: string): (p: string)
    ensures |p| == |instructions| + |context| + |question| + TemplateLength
    ensures p[0] == '\n' && p[|p| - |AnswerCue|..] == AnswerCue
  {
    "\n" + instructions + ContextLabel + context + QuestionLabel + question + AnswerCue
  }

  /** Reads the three fields back out of a prompt, given the lengths of the
      first two. */
  function PromptParts(p: string, instructionsLength: nat, contextLength: nat): (parts: (string, string, string))
    requires instructionsLength + contextLength + TemplateLength <= |p|
    ensures |parts.0| == instructionsLength && |parts.1| == contextLength
    ensures |p| == |parts.0| + |parts.1| + |parts.2| + TemplateLength
  {
    var c := 1 + instructionsLength + |ContextLabel|;
    var q := c + contextLength + |QuestionLabel|;
    (p[1..1 + instructionsLength], p[c..c + contextLength], p[q..|p| - |AnswerCue|])
  }

  /** The prompt keeps its fields intact: they can be read back once the
      lengths of the instructions and the context are known. */
  lemma PromptRoundTrip(instructions: string, context: string, question: string)
    ensures PromptParts(Prompt(instructions, context, question), |instructions|, |context|)
            == (instructions, context, question)
  {
    var p := Prompt(instructions, context, question);
    var c := 1 + |instructions| + |ContextLabel|;
    var q := c + |context| + |QuestionLabel|;
    assert p[1..1 + |instructions|] == instructions;
    assert p[c..c + |context|] == context;
    assert p[q..|p| - |AnswerCue|] == question;
  }

  /** For the fixed instructions, two prompts with equally long contexts are
      equal only when their contexts and questions are. */
  lemma PromptInjective(instructions: string, c1: string, q1: string, c2: string, q2: string)
    requires |c1| == |c2|
    ensures Prompt(instructions, c1, q1) == Prompt(instructions, c2, q2) <==> c1 == c2 && q1 == q2
  {
    if Prompt(instructions, c1, q1) == Prompt(instructions, c2, q2) {
      PromptRoundTrip(instructions, c1, q1);
      PromptRoundTrip(instructions, c2, q2);
    }
  }

  // ---------------------------------------------------------------------------
  // One question, one response
  // ---------------------------------------------------------------------------

  /** What the page shows once a file is uploaded. */
  datatype Response =
    | CouldNotExtract
    | AwaitingQuestion
    | NotEnoughInformation
    | Answered(text: string)

  const CouldNotExtractMessage: string := "\U{26A0} Could not extract text. Please try another file."
  const NotEnoughInformationMessage: string :=
    "\U{26A0} The document does not contain enough information to answer this question."

  /** The text written to the page for a response; nothing is written while
      the question box is empty. */
  function Shown(r: Response): (s: Option<string>)
    ensures s.None? <==> r.AwaitingQuestion?
    ensures r.Answered? ==> s == Some(r.text)
  {
    match r
    case CouldNotExtract => Some(CouldNotExtractMessage)
    case AwaitingQuestion => None
    case NotEnoughInformation => Some(NotEnoughInformationMessage)
    case Answered(text) => Some(text)
  }

  /** The text is blank: every character is whitespace, which is exactly when
      `text.strip()` is empty and the test `if text.strip():` fails. */
  function Blank(text: string): (b: bool)
    ensures b <==> Strip(text) == []
  {
    forall i :: 0 <= i < |text| ==> IsSpace(text[i])
  }

  /** The response to `question` about the uploaded file `name`, whose
      parsed content is `doc`; the app always passes `Instructions`. */
  function Respond(
    instructions: string, name: string, doc: ParsedDocument, question: string,
    search: string -> seq<ScoredMatch>, generate: string -> string): (r: Response)
    ensures r.CouldNotExtract? <==> Blank(ExtractText(name, doc))
    ensures r.AwaitingQuestion? <==> !Blank(ExtractText(name, doc)) && question == []
    ensures r.NotEnoughInformation? <==>
              && !Blank(ExtractText(name, doc))
              && question != []
              && forall k :: 0 <= k < |search(question)| ==> search(question)[k].score > SimilarityThreshold
    ensures r.Answered? ==> IsTrimmed(r.text) && MarkerFree(r.text)
  {
    var text := ExtractText(name, doc);
    if Strip(text) == [] then CouldNotExtract
    else if question == [] then AwaitingQuestion
    else
      var kept := RelevantMatches(search(question));
      NoRelevantMatchIff(search(question));
      if kept == [] then NotEnoughInformation
      else
        var prompt := Prompt(instructions, Context(kept), question);
        Answered(CleanAnswer(generate(prompt), prompt))
  }

  /** The answer is the cleaned completion of the prompt built from the
      relevant chunks alone. */
  lemma AnsweredFromRelevantContext(
    instructions: string, name: string, doc: ParsedDocument, question: string,
    search: string -> seq<ScoredMatch>, generate: string -> string)
    requires Respond(instructions, name, doc, question, search, generate).Answered?
    ensures RelevantMatches(search(question)) != []
    ensures var p := Prompt(instructions, Context(RelevantMatches(search(question))), question);
            Respond(instructions, name, doc, question, search, generate).text
              == CleanAnswer(generate(p), p)
  {
  }

  /** A blank extraction stops before the store and the model are consulted. */
  lemma BlankTextIgnoresModels(
    instructions: string, name: string, doc: ParsedDocument, question: string,
    s1: string -> seq<ScoredMatch>, g1: string -> string,
    s2: string -> seq<ScoredMatch>, g2: string -> string)
    requires Blank(ExtractText(name, doc))
    ensures Respond(instructions, name, doc, question, s1, g1) == CouldNotExtract
    ensures Respond(instructions, name, doc, question, s2, g2) == CouldNotExtract
  {
  }

  /** A file whose extension is none of the four is reported as unreadable,
      whatever its content. */
  lemma UnsupportedFileCannotExtract(
    instructions: string, name: string, doc: ParsedDocument, question: string,
    search: string -> seq<ScoredMatch>, generate: string -> string)
    requires ExtensionKind(name) == Unsupported
    ensures Respond(instructions, name, doc, question, search, generate) == CouldNotExtract
  {
  }

  /** Matches above the threshold never influence the response: two stores
      that agree on the relevant matches lead to the same response. */
  lemma IrrelevantMatchesIgnored(
    instructions: string, name: string, doc: ParsedDocument, question: string,
    s1: string -> seq<ScoredMatch>, s2: string -> seq<ScoredMatch>, generate: string -> string)
    requires RelevantMatches(s1(question)) == RelevantMatches(s2(question))
    ensures Respond(instructions, name, doc, question, s1, generate)
            == Respond(instructions, name, doc, question, s2, generate)
  {
    NoRelevantMatchIff(s1(question));
    NoRelevantMatchIff(s2(question));
  }

  /** Appending matches that are all beyond the threshold to what the store
      returns changes nothing. */
  lemma {:induction false} FartherMatchesIgnored(
    instructions: string, name: string, doc: ParsedDocument, question: string,
    search: string -> seq<ScoredMatch>, farther: seq<ScoredMatch>, generate: string -> string)
    requires forall k :: 0 <= k < |farther| ==> !IsRelevant(farther[k])
    ensures Respond(instructions, name, doc, question, search, generate)
            == Respond(instructions, name, doc, question, q => search(q) + farther, generate)
  {
    var extended := q => search(q) + farther;
    RelevantMatchesConcat(search(question), farther);
    NoRelevantMatchIff(farther);
    assert RelevantMatches(search(question)) + [] == RelevantMatches(search(question));
    IrrelevantMatchesIgnored(instructions, name, doc, question, search, extended, generate);
  }

  /** With no match within the threshold the advisory is shown, whatever the
      model would have generated. */
  lemma NoRelevantMatchForAnyGenerator(
    instructions: string, name: string, doc: ParsedDocument, question: string,
    search: string -> seq<ScoredMatch>, generate: string -> string)
    requires !Blank(ExtractText(name, doc)) && question != []
    requires RelevantMatches(search(question)) == []
    ensures Respond(instructions, name, doc, question, search, generate) == NotEnoughInformation
  {
    NoRelevantMatchIff(search(question));
  }

  // ---------------------------------------------------------------------------
  // A worked answer
  // ---------------------------------------------------------------------------

  /** The continuation the model is assumed to write after the echoed prompt. */
  const RunOn: string := "The capital is Paris.\nQuestion: what else?"

  /** A model that echoes the prompt and then writes an answer followed by a
      question of its own: the echo is removed and the extra question cut. */
  lemma EchoAndRunOnQuestionAreRemoved(
    instructions: string, name: string, doc: ParsedDocument, question: string,
    search: string -> seq<ScoredMatch>)
    requires !Blank(ExtractText(name, doc)) && question != []
    requires RelevantMatches(search(question)) != []
    requires |instructions| >= |RunOn|
    ensures Respond(instructions, name, doc, question, search, p => p + RunOn)
            == Answered("The capital is Paris.")
  {
    var p := Prompt(instructions, Context(RelevantMatches(search(question))), question);
    NotLonger(RunOn, p);
    RunOnIsCleaned(RunOn);
    RespondToEcho(instructions, name, doc, question, search, RunOn);
  }

  /** A model that echoes the prompt and continues with any text `t` that
      does not repeat the prompt: the response is `t` trimmed and cleaned. */
  lemma RespondToEcho(
    instructions: string, name: string, doc: ParsedDocument, question: string,
    search: string -> seq<ScoredMatch>, t: string)
    requires !Blank(ExtractText(name, doc)) && question != []
    requires RelevantMatches(search(question)) != []
    requires !Contains(t, Prompt(instructions, Context(RelevantMatches(search(question))), question))
    ensures Respond(instructions, name, doc, question, search, p => p + t)
            == Answered(CleanCompletion(Strip(t)))
  {
    var p := Prompt(instructions, Context(RelevantMatches(search(question))), question);
    StripPromptDropsEcho(p, t);
  }

  /** The app's own instructions meet the length condition above. */
  lemma InstructionsOutweighRunOn()
    ensures |Instructions| > |RunOn|
  {
  }

  /** A prompt longer than the continuation is removed from the echo: too
      long to occur in the continuation, it is the case `StripPromptDropsEcho`
      covers, and stripping leaves a trimmed continuation as it is. */
  lemma EchoIsRemoved(p: string, t: string)
    requires |p| > |t| && IsTrimmed(t)
    ensures StripPrompt(p + t, p) == t
  {
    NotLonger(t, p);
    StripPromptDropsEcho(p, t);
  }

  // The worked examples below take their literal as a parameter fixed by a
  // `requires` rather than writing it in the body: each fact about the
  // literal is then proved in a small lemma of its own, and the callers
  // reason about a name instead of the literal's characters.
  lemma RunOnIsCleaned(t: string)
    requires t == RunOn
    ensures IsTrimmed(t)
    ensures CleanCompletion(t) == "The capital is Paris."
  {
    var a := "The capital is Paris.";
    RunOnIsCut(t, a);
    AnswerOnlyIsClean(a);
  }

  lemma RunOnIsCut(t: string, a: string)
    requires t == RunOn && a == "The capital is Paris."
    ensures TruncateAtMarkers(t) == a
  {
    TruncateAtMarkersUnfold(t);
    RunOnFirstCut(t, a);
    AnswerOnlyHasNoColon(a);
    CutAtMissing(a, Markers[1], ':');
    CutAtMissing(a, Markers[2], ':');
    CutAtMissing(a, Markers[3], ':');
  }

  lemma RunOnFirstCut(t: string, a: string)
    requires t == RunOn && a == "The capital is Paris."
    ensures CutAt(t, Markers[0]) == a
  {
    var b := RunOnParts(t, a);
    FindAtJoint(a, b, Markers[0]);
    assert t[..|a|] == a;
  }

  /** The continuation is the answer, then the marker and a question. */
  lemma RunOnParts(t: string, a: string) returns (b: string)
    requires t == RunOn && a == "The capital is Paris."
    ensures t == a + b
    ensures Markers[0] <= b && Markers[0][0] !in a
    ensures IsTrimmed(a)
  {
    b := "\nQuestion: what else?";
    RunOnJoint(t, a, b);
    QuestionMarkerLeads(b);
    AnswerOnlyShape(a);
  }

  lemma RunOnJoint(t: string, a: string, b: string)
    requires t == RunOn && a == "The capital is Paris." && b == "\nQuestion: what else?"
    ensures t == a + b
  {
  }

  lemma QuestionMarkerLeads(b: string)
    requires b == "\nQuestion: what else?"
    ensures Markers[0] <= b
  {
  }

  lemma AnswerOnlyHasNoColon(a: string)
    requires a == "The capital is Paris."
    ensures ':' !in a
  {
  }

  lemma AnswerOnlyIsClean(a: string)
    requires a == "The capital is Paris."
    ensures DedupLines(a) == a && StripAnswerLabel(a) == a
  {
    AnswerOnlyShape(a);
    DedupLinesSingleLine(a);
    NoLabelUnlessLeadingA(a);
  }

  lemma AnswerOnlyShape(a: string)
    requires a == "The capital is Paris."
    ensures '\n' !in a && IsTrimmed(a) && a[0] == 'T'
  {
  }
}
