/** The conversation state behind `/ask`: a transcript of role-tagged
    messages seeded once at start-up and only ever appended to. The
    completion service is an oracle from the transcript it is sent to a
    reply or an error. */
module Conversation {
  import opened Wrappers
  import opened Budget
  import opened Extractors
  import opened Corpus

  datatype Role = System | User | Assistant

  datatype Message = Message(role: Role, content: string)

  /** The fixed system instruction that opens every transcript. */
  const SystemPrompt: string :=
    "You are an educational assistant from Hamza Corporation. Your role is to "
    + "provide comprehensive answers to academic queries using both the provided "
    + "educational data and your general knowledge. Be proactive in understanding "
    + "the student's interests and learning goals. When interacting: 1) Introduce "
    + "yourself as a Hamza Corporation educational advisor, 2) Provide detailed, "
    + "well-structured explanations, 3) Ask follow-up questions to better "
    + "understand the student's needs, 4) Suggest related topics they might be "
    + "interested in, 5) Maintain a supportive and encouraging tone. If a "
    + "question is unclear, ask for clarification to ensure you provide the most "
    + "relevant and helpful response."

  /** The text around the corpus in the second seed message. */
  const DataIntro: string := "Here is the data:\n"
  const DataOutro: string := " now user will ask questions from the data"

  const NoQuestionMessage: string := "No question provided."
  const NoFilesMessage: string :=
    "No supported files found in the data folder. Please provide PDF, DOCX, CSV, or Excel files."

  /** What the completion service returns for one request. */
  datatype Completion = Completed(text: string) | ServiceError(message: string)

  /** The HTTP reply of `/ask`: a success with the answer (status 200), or a
      failure with its status and message. */
  datatype Reply = Ok(answer: string) | Fail(status: nat, message: string)

  /** A reply together with the transcript after the request. */
  datatype Exchange = Exchange(reply: Reply, transcript: seq<Message>)

  /** The shape every transcript keeps: the system message first, the
      corpus-bearing user message second, no further system message, and
      every assistant message directly after a user message. */
  predicate WellFormed(t: seq<Message>) {
    && |t| >= 2
    && t[0].role == System
    && t[1].role == User
    && (forall i | 1 <= i < |t| :: t[i].role != System)
    && (forall i | 2 <= i < |t| :: t[i].role == Assistant ==> t[i - 1].role == User)
  }

  /** The two seed messages: the system instruction, then the (possibly
      trimmed) corpus between the fixed intro and outro. */
  function Seed(prompt: string, corpus: string): (t: seq<Message>)
    ensures |t| == 2 && WellFormed(t)
    ensures t[0] == Message(System, prompt)
    ensures t[1].role == User
    ensures |t[1].content| == |DataIntro| + |corpus| + |DataOutro|
    ensures t[1].content[..|DataIntro|] == DataIntro
    ensures t[1].content[|DataIntro|..|DataIntro| + |corpus|] == corpus
    ensures t[1].content[|DataIntro| + |corpus|..] == DataOutro
  {
    [Message(System, prompt), Message(User, DataIntro + corpus + DataOutro)]
  }

  /** Module start-up: build the corpus, refuse to start when it is empty,
      apply the token budget, and seed the transcript. */
  function Startup(prompt: string, entries: seq<Entry>, process: Processor): (r: Result<seq<Message>, string>)
    ensures r.Failure? <==> forall i | 0 <= i < |entries| :: !Contributes(entries[i], process)
    ensures r.Failure? ==> r.error == NoFilesMessage
    ensures r.Success? ==> |r.value| == 2 && WellFormed(r.value)
    ensures r.Success? ==> r.value[0] == Message(System, prompt)
    ensures r.Success? ==>
      r.value[1] == Message(User, DataIntro + ApplyBudget(BuildCorpus(entries, process)) + DataOutro)
  {
    var combined := BuildCorpus(entries, process);
    BuildCorpusEmptyIff(entries, process);
    if combined == "" then Failure(NoFilesMessage)
    else Success(Seed(prompt, ApplyBudget(combined)))
  }

  /** The corpus embedded at start-up never exceeds the token limit, and
      is the built corpus itself whenever that is within the limit. */
  lemma StartupCorpusWithinBudget(prompt: string, entries: seq<Entry>, process: Processor)
    requires exists i | 0 <= i < |entries| :: Contributes(entries[i], process)
    ensures Startup(prompt, entries, process).Success?
    ensures var content := Startup(prompt, entries, process).value[1].content;
      exists corpus ::
        && content == DataIntro + corpus + DataOutro
        && EstimateTokenCount(corpus) <= TokenLimit
        && (EstimateTokenCount(BuildCorpus(entries, process)) <= TokenLimit ==> corpus == BuildCorpus(entries, process))
  {
    var built := BuildCorpus(entries, process);
    BuildCorpusEmptyIff(entries, process);
    var corpus := ApplyBudget(built);
    assert Startup(prompt, entries, process).value[1].content == DataIntro + corpus + DataOutro;
  }

  /** The server's start-up: the fixed system instruction, and `ProcessFile`
      over the parsers as the per-file processor. It refuses to start
      exactly when no listed file yields text. */
  function ServerStartup<T>(entries: seq<Entry>, o: Oracles<T>): (r: Result<seq<Message>, string>)
    ensures r.Failure? <==> forall i | 0 <= i < |entries| :: !Contributes(entries[i], FileProcessor(o))
    ensures r.Failure? ==> r.error == NoFilesMessage
    ensures r.Success? ==> |r.value| == 2 && WellFormed(r.value) && r.value[0] == Message(System, SystemPrompt)
  {
    Startup(SystemPrompt, entries, FileProcessor(o))
  }

  /** `ask_question`: an absent or empty question is refused with 400 and
      no change; otherwise the question is appended as a user message and
      the whole transcript is sent to the service, whose answer is appended
      and returned, or whose error is returned with 500 and leaves the
      question in place. */
  function Ask(t: seq<Message>, question: Option<string>, service: seq<Message> -> Completion): (e: Exchange)
    ensures t <= e.transcript
    ensures e.reply == Fail(400, NoQuestionMessage) <==> question == None || question == Some("")
    ensures e.reply.Fail? ==> e.reply.status == 400 || e.reply.status == 500
    ensures e.reply.Fail? && e.reply.status == 400 ==> e.transcript == t
    ensures question.Some? && question.value != "" ==>
      var asked := t + [Message(User, question.value)];
      match service(asked)
      case Completed(answer) =>
        e.reply == Ok(answer) && e.transcript == asked + [Message(Assistant, answer)]
      case ServiceError(m) =>
        e.reply == Fail(500, m) && e.transcript == asked
    ensures WellFormed(t) ==> WellFormed(e.transcript)
  {
    match question
    case None => Exchange(Fail(400, NoQuestionMessage), t)
    case Some(q) =>
      if q == "" then Exchange(Fail(400, NoQuestionMessage), t)
      else
        var asked := t + [Message(User, q)];
        match service(asked)
        case Completed(answer) => Exchange(Ok(answer), asked + [Message(Assistant, answer)])
        case ServiceError(m) => Exchange(Fail(500, m), asked)
  }

  /** One request of a session: its question and the service's behaviour. */
  datatype Turn = Turn(question: Option<string>, service: seq<Message> -> Completion)

  /** The replies of a session and the transcript it leaves. */
  datatype Session = Session(replies: seq<Reply>, transcript: seq<Message>)

  function CountOk(replies: seq<Reply>): nat
  {
    if |replies| == 0 then 0 else (if replies[0].Ok? then 1 else 0) + CountOk(replies[1..])
  }

  function CountServerErrors(replies: seq<Reply>): nat
  {
    if |replies| == 0 then 0
    else (if replies[0].Fail? && replies[0].status == 500 then 1 else 0) + CountServerErrors(replies[1..])
  }

  /** Requests served one after another. The transcript only grows, keeps
      its shape, and grows by two messages per answered request and one per
      failed completion; refused requests add nothing. */
  function Run(t: seq<Message>, turns: seq<Turn>): (s: Session)
    ensures |s.replies| == |turns|
    ensures t <= s.transcript
    ensures |s.transcript| == |t| + 2 * CountOk(s.replies) + CountServerErrors(s.replies)
    ensures WellFormed(t) ==> WellFormed(s.transcript)
    decreases |turns|
  {
    if |turns| == 0 then Session([], t)
    else
      var e := Ask(t, turns[0].question, turns[0].service);
      var rest := Run(e.transcript, turns[1..]);
      var replies := [e.reply] + rest.replies;
      assert replies[1..] == rest.replies;
      Session(replies, rest.transcript)
  }

  /** Two answered questions after the seed give six messages, in call
      order. */
  lemma TwoAnsweredQuestions(prompt: string, corpus: string, q1: string, q2: string, a1: string, a2: string,
                             s1: seq<Message> -> Completion, s2: seq<Message> -> Completion)
    requires q1 != "" && q2 != ""
    requires s1(Seed(prompt, corpus) + [Message(User, q1)]) == Completed(a1)
    requires s2(Seed(prompt, corpus) + [Message(User, q1), Message(Assistant, a1), Message(User, q2)]) == Completed(a2)
    ensures var s := Run(Seed(prompt, corpus), [Turn(Some(q1), s1), Turn(Some(q2), s2)]);
      && s.replies == [Ok(a1), Ok(a2)]
      && s.transcript == Seed(prompt, corpus) + [Message(User, q1), Message(Assistant, a1),
                                          Message(User, q2), Message(Assistant, a2)]
      && |s.transcript| == 6
  {
    var t0 := Seed(prompt, corpus);
    var turns := [Turn(Some(q1), s1), Turn(Some(q2), s2)];
    var e1 := Ask(t0, Some(q1), s1);
    assert e1.transcript == t0 + [Message(User, q1), Message(Assistant, a1)];
    var e2 := Ask(e1.transcript, Some(q2), s2);
    assert e1.transcript + [Message(User, q2)]
        == t0 + [Message(User, q1), Message(Assistant, a1), Message(User, q2)];
    assert turns[1..] == [Turn(Some(q2), s2)];
    assert turns[1..][1..] == [];
  }
}
