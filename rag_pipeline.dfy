/**
 * Answering a question about the ingested document: fetch the closest
 * chunks, build a prompt around them, run the text-generation model and cut
 * the answer out of what it generated.
 *
 * The vector store (opening the collection, embedding the question and the
 * nearest-neighbour query) is the parameter `search`, and the language model
 * is the parameter `llm`, which maps a prompt to the `generated_text` of its
 * first result.
 */
module RagPipeline {
  import opened PyStr

  /** What can go wrong before the model is reached. */
  datatype Error =
    | StoreFailure        // the collection could not be opened or queried
    | NoResultList        // `results["documents"]` is an empty list: IndexError
    | NullDocuments       // `results["documents"]` is None: TypeError

  datatype Result<T> = Ok(value: T) | Err(error: Error)

  /** The `"documents"` entry of a query result: one list of chunk texts per
      query embedding, or no such key, or a null value. */
  datatype Documents = Absent | Null | Lists(lists: seq<seq<string>>)

  /** The part of a query result the pipeline reads. */
  datatype QueryResult = QueryResult(documents: Documents)

  /** Function type of the vector store, from a question and `top_k`. */
  type Search = (string, int) -> Result<QueryResult>

  /** The `top_k` that `get_relevant_chunks` and `answer_question` use when
      the caller gives none. */
  const DefaultTopK: int := 3

  // The fixed answers are written in short pieces: sentence-long literals
  // make the verifier's character-by-character reasoning about them slow.
  const NoInformation: string := "No relevant information" + " found in document."
  const Refusal: string :=
    "I don't know " + ['\U{2014}'] + " the document does not" + " contain this information."
  const ContextSeparator: string := "\n\n"
  const ContextLimit: nat := 1500
  const AnswerMarker: string := "ANSWER:"

  // ---------------------------------------------------------------------
  // get_relevant_chunks

  /** `results.get("documents", [[]])[0]`: the chunks found for the one
      query embedding. A missing key reads as no chunks; an empty list or a
      null value makes the indexing fail. */
  function FirstDocuments(documents: Documents): (r: Result<seq<string>>)
    ensures documents.Absent? ==> r == Ok([])
    ensures r.Err? <==> documents.Null? || (documents.Lists? && documents.lists == [])
    ensures documents.Lists? && documents.lists != [] ==> r == Ok(documents.lists[0])
  {
    match documents
    case Absent => Ok([])
    case Null => Err(NullDocuments)
    case Lists(lists) => if lists == [] then Err(NoResultList) else Ok(lists[0])
  }

  /** `get_relevant_chunks(question, top_k)`: a failing store call fails
      with the same error; a result without `"documents"` gives no chunks;
      a null or empty `"documents"` fails; otherwise the chunks are the
      first list of documents. */
  function RelevantChunks(question: string, topK: int, search: Search): (r: Result<seq<string>>)
    ensures search(question, topK).Err? ==> r == Err(search(question, topK).error)
    ensures search(question, topK) == Ok(QueryResult(Absent)) ==> r == Ok([])
    ensures r.Err? <==> (search(question, topK).Err? ||
                         search(question, topK).value.documents.Null? ||
                         search(question, topK).value.documents == Lists([]))
    ensures r.Ok? ==> (search(question, topK).Ok? &&
                       (r.value == [] || search(question, topK).value.documents.Lists?))
    ensures (r.Ok? && search(question, topK).value.documents.Lists?) ==>
      r.value == search(question, topK).value.documents.lists[0]
  {
    match search(question, topK)
    case Err(e) => Err(e)
    case Ok(result) => FirstDocuments(result.documents)
  }

  // ---------------------------------------------------------------------
  // answer_question

  /** `"\n\n".join(chunks)[:1500]`. */
  function Context(chunks: seq<string>): (context: string)
    ensures |context| == if |Join(ContextSeparator, chunks)| < ContextLimit
                         then |Join(ContextSeparator, chunks)| else ContextLimit
    ensures StartsWith(Join(ContextSeparator, chunks), context)
  {
    var joined := Join(ContextSeparator, chunks);
    if |joined| <= ContextLimit then joined else joined[..ContextLimit]
  }

  /** The truncation is applied to the joined text, not chunk by chunk: a
      first chunk of 1500 characters or more leaves no room for the others. */
  lemma LongFirstChunkFillsContext(chunks: seq<string>)
    requires |chunks| > 0 && |chunks[0]| >= ContextLimit
    ensures Context(chunks) == chunks[0][..ContextLimit]
  {
    JoinStartsWithFirst(ContextSeparator, chunks);
    var joined := Join(ContextSeparator, chunks);
    assert joined[..ContextLimit] == joined[..|chunks[0]|][..ContextLimit];
  }

  /** A line break and the template's eight-space indentation. */
  const Indent: string := "\n        "

  /** The template up to the opening quote of the refusal text. */
  const PromptRules: string :=
    Indent + "You are a helpful AI assistant. Your job is to answer the user's question "
    + Indent + "using ONLY the information provided in the CONTEXT below.\n"
    + Indent + "STRICT RULES:"
    + Indent + "1. If the answer is not clearly stated in the context, reply exactly:"
    + Indent + "\""

  /** From the closing quote of the refusal text to the context. */
  const PromptContextLead: string :=
    "\"" + Indent + "2. Do NOT add extra facts, assumptions, or hallucinations."
    + Indent + "3. Keep the answer short, clear, and factual.\n"
    + Indent + "CONTEXT:"
    + Indent + "\"\"\""

  /** From the end of the context to the question. */
  const PromptQuestionLead: string := "\"\"\"\n" + Indent + "QUESTION:" + Indent

  /** From the end of the question to the answer cue. */
  const PromptCueLead: string := "\n" + Indent + "FINAL "

  /** The prompt template filled with the context and the question. It
      carries the refusal text, the context and the question, and ends with
      the cue `FINAL ANSWER:` followed only by the indentation of the next
      line. */
  function Prompt(context: string, question: string): (prompt: string)
    ensures Contains(prompt, Refusal)
    ensures Contains(prompt, context)
    ensures Contains(prompt, question)
    ensures EndsWith(prompt, PromptCueLead + AnswerMarker + Indent) && AllSpace(Indent)
  {
    TemplateLayout(PromptRules, Refusal, PromptContextLead, context, PromptQuestionLead, question,
                   PromptCueLead, AnswerMarker, Indent);
    PromptRules + Refusal + PromptContextLead + context + PromptQuestionLead + question
      + PromptCueLead + AnswerMarker + Indent
  }

  lemma TemplateLayout(a: string, r: string, b: string, c: string, d: string, q: string,
                       e: string, m: string, w: string)
    ensures var s := a + r + b + c + d + q + e + m + w;
      Contains(s, r) && Contains(s, c) && Contains(s, q) && EndsWith(s, e + m + w)
  {
    var s := a + r + b + c + d + q + e + m + w;
    assert s == a + r + (b + c + d + q + e + m + w);
    ContainsInfix(a, r, b + c + d + q + e + m + w);
    assert s == (a + r + b) + c + (d + q + e + m + w);
    ContainsInfix(a + r + b, c, d + q + e + m + w);
    assert s == (a + r + b + c + d) + q + (e + m + w);
    ContainsInfix(a + r + b + c + d, q, e + m + w);
  }

  /** `output.split("ANSWER:")[-1].strip()`: what follows the last
      `ANSWER:`, which holds no `ANSWER:` and has no whitespace at either
      end. */
  function ExtractAnswer(output: string): (answer: string)
    ensures !Contains(answer, AnswerMarker)
    ensures IsStripped(answer)
  {
    var piece := LastPiece(output, AnswerMarker);
    LastPieceIsAfterLastSeparator(output, AnswerMarker);
    StripKeepsAbsence(piece, AnswerMarker);
    Strip(piece)
  }

  lemma AnswerMarkerUnbordered()
    ensures Unbordered(AnswerMarker)
  {
  }

  /** Output without the marker is the answer as a whole, stripped. */
  lemma ExtractWithoutMarker(output: string)
    requires !Contains(output, AnswerMarker)
    ensures ExtractAnswer(output) == Strip(output)
  {
    LastPieceIsAfterLastSeparator(output, AnswerMarker);
  }

  /** Whatever precedes a final `ANSWER:`, a continuation after it that
      starts with whitespace and holds no marker is the answer, stripped. */
  lemma ExtractAfterMarker(before: string, continuation: string)
    requires !Contains(continuation, AnswerMarker)
    ensures ExtractAnswer(before + AnswerMarker + (Indent + continuation)) == Strip(continuation)
  {
    assert AllSpace(Indent);
    ContainsSkipPrefix(Indent, continuation, AnswerMarker);
    AnswerMarkerUnbordered();
    LastPieceAfterSeparator(before, AnswerMarker, Indent + continuation);
    StripSkipsSpace(Indent, continuation);
  }

  lemma Regroup(a: string, m: string, w: string, k: string)
    ensures a + m + w + k == a + m + (w + k)
  {
  }

  /** When the model echoes the prompt and continues it with text that holds
      no `ANSWER:`, the answer is that continuation, stripped. */
  lemma ExtractAfterEchoedPrompt(context: string, question: string, continuation: string)
    requires !Contains(continuation, AnswerMarker)
    ensures ExtractAnswer(Prompt(context, question) + continuation) == Strip(continuation)
  {
    var before := PromptRules + Refusal + PromptContextLead + context + PromptQuestionLead + question
      + PromptCueLead;
    Regroup(PromptRules + Refusal + PromptContextLead + context + PromptQuestionLead + question
              + PromptCueLead, AnswerMarker, Indent, continuation);
    ExtractAfterMarker(before, continuation);
  }

  predicate LacksLetter(s: string, c: char) {
    forall i :: 0 <= i < |s| ==> s[i] != c
  }

  lemma LacksLetterConcat(a: string, b: string, c: char)
    requires LacksLetter(a, c) && LacksLetter(b, c)
    ensures LacksLetter(a + b, c)
  {
    forall i | 0 <= i < |a + b| ensures (a + b)[i] != c {
      if i >= |a| { assert (a + b)[i] == b[i - |a|]; }
    }
  }

  /** A string without the marker's first letter holds no marker. */
  lemma NoMarkerLetter(s: string)
    requires LacksLetter(s, AnswerMarker[0])
    ensures !Contains(s, AnswerMarker)
  {
    ContainsSkipPrefix(s, "", AnswerMarker);
    assert s + "" == s;
  }

  lemma NoInformationIsClean()
    ensures !Contains(NoInformation, AnswerMarker) && IsStripped(NoInformation)
  {
    LacksLetterConcat("No relevant information", " found in document.", 'A');
    NoMarkerLetter(NoInformation);
  }

  lemma RefusalIsClean()
    ensures !Contains(Refusal, AnswerMarker) && IsStripped(Refusal)
  {
    LacksLetterConcat("I don't know ", ['\U{2014}'], 'A');
    LacksLetterConcat("I don't know " + ['\U{2014}'], " the document does not", 'A');
    LacksLetterConcat("I don't know " + ['\U{2014}'] + " the document does not", " contain this information.", 'A');
    NoMarkerLetter(Refusal);
  }

  /** `answer_question(question, top_k)`: no chunks give the fixed
      no-information answer without consulting the model; otherwise the
      model's answer to the prompt built from the chunks. */
  function AnswerQuestion(question: string, topK: int, search: Search, llm: string -> string): (r: Result<string>)
    ensures r.Err? <==> RelevantChunks(question, topK, search).Err?
    ensures RelevantChunks(question, topK, search) == Ok([]) ==> r == Ok(NoInformation)
    ensures r.Ok? ==> !Contains(r.value, AnswerMarker) && IsStripped(r.value)
  {
    match RelevantChunks(question, topK, search)
    case Err(e) => Err(e)
    case Ok(chunks) =>
      if chunks == [] then
        NoInformationIsClean();
        Ok(NoInformation)
      else
        Ok(ExtractAnswer(llm(Prompt(Context(chunks), question))))
  }

  /** With no chunks the model's behaviour makes no difference: it is not
      consulted. */
  lemma NoChunksIgnoresModel(question: string, topK: int, search: Search, llm1: string -> string, llm2: string -> string)
    requires RelevantChunks(question, topK, search) == Ok([])
    ensures AnswerQuestion(question, topK, search, llm1) == AnswerQuestion(question, topK, search, llm2)
  {
  }

  /** A store result without a `"documents"` key yields the no-information
      answer rather than an error. */
  lemma MissingDocumentsKey(question: string, topK: int, search: Search, llm: string -> string)
    requires search(question, topK) == Ok(QueryResult(Absent))
    ensures AnswerQuestion(question, topK, search, llm) == Ok(NoInformation)
  {
  }

  /** When chunks are found and the model returns the prompt followed by a
      continuation without `ANSWER:`, the answer is that continuation,
      stripped; in particular a bare refusal comes back verbatim. */
  lemma AnswerIsContinuation(question: string, topK: int, search: Search, llm: string -> string, continuation: string)
    requires RelevantChunks(question, topK, search).Ok?
    requires RelevantChunks(question, topK, search).value != []
    requires !Contains(continuation, AnswerMarker)
    requires var prompt := Prompt(Context(RelevantChunks(question, topK, search).value), question);
      llm(prompt) == prompt + continuation
    ensures AnswerQuestion(question, topK, search, llm) == Ok(Strip(continuation))
  {
    ExtractAfterEchoedPrompt(Context(RelevantChunks(question, topK, search).value), question, continuation);
  }

  lemma PaddedRefusalIsClean()
    ensures !Contains(" " + Refusal, AnswerMarker)
    ensures Strip(" " + Refusal) == Refusal
  {
    RefusalIsClean();
    ContainsSkipPrefix(" ", Refusal, AnswerMarker);
    StripSkipsSpace(" ", Refusal);
    StripStripped(Refusal);
  }

  /** A model that follows the instruction to refuse, echoing the prompt and
      adding the refusal text, yields exactly the refusal text. */
  lemma RefusalComesBackVerbatim(question: string, topK: int, search: Search, llm: string -> string)
    requires RelevantChunks(question, topK, search).Ok?
    requires RelevantChunks(question, topK, search).value != []
    requires var prompt := Prompt(Context(RelevantChunks(question, topK, search).value), question);
      llm(prompt) == prompt + (" " + Refusal)
    ensures AnswerQuestion(question, topK, search, llm) == Ok(Refusal)
  {
    PaddedRefusalIsClean();
    AnswerIsContinuation(question, topK, search, llm, " " + Refusal);
  }
}
