/**
 * Question generation (app.py, `generate_for_topic` and the `/api/generate`
 * handler `generate_questions`). The language-model call and `json.loads`
 * are parameters: `llm(call, prompt)` is the reply text the client returns
 * to the handler's `call`-th request (counting from 0), None when the client
 * raises, so two requests with the same prompt may be answered differently;
 * `parse` maps the cleaned reply to what the JSON decoder makes of it.
 * Questions are opaque values of type `Q`.
 */
module Generate {
  import opened Wrappers
  import opened Courses
  import opened Text
  import opened Distribution
  import opened Extraction

  /** What a generation prompt asks for: the course, subject and topic, the
      number of questions and the questions per Bloom's level. The prose
      around these values is not modelled. */
  datatype Prompt = Prompt(
    course: string, subject: string, topic: string,
    numQuestions: int, levels: map<int, int>)

  /** What `json.loads` makes of the cleaned reply. */
  datatype Parsed<Q> = Malformed | JsonArray(items: seq<Q>) | OtherJson

  /** Why generating the questions for one topic failed. */
  datatype TopicError =
    | InvalidCourse   // ValueError('Invalid course')
    | ClientError     // the model call raised
    | DecodeError     // json.JSONDecodeError
    | NotAList        // ValueError('Invalid response format from AI')

  /** The body of an `/api/generate` request; an absent key is None, and an
      absent topic list is empty. */
  datatype Request = Request(
    course: Option<string>, subject: Option<string>,
    topics: seq<string>, numQuestions: Option<int>)

  /** The three checks made before anything is generated. */
  datatype Rejection = MissingFields | CountOutOfRange | UnsupportedCourse

  /** The handler's reply: the questions with their count and the number of
      topics, a rejected request, an unparseable model reply, or any other
      failure during generation. */
  datatype Response<Q> =
    | Generated(questions: seq<Q>, count: int, topicsCount: int)
    | Rejected(reason: Rejection)
    | ParseFailed
    | ApiFailed(cause: TopicError)

  /** The prompt `generate_for_topic` builds for a course (through
      `get_neet_prompt` or `get_usmle_prompt`); none for any other course.
      A prompt always asks for the requested number of questions, and its
      level quotas add up to that number. */
  function BuildPrompt(course: string, subject: string, topic: string, numQuestions: int): (r: Option<Prompt>)
    ensures r.None? <==> !IsKnownCourse(course)
    ensures r.Some? ==>
      r.value.course == course && r.value.subject == subject
      && r.value.topic == topic && r.value.numQuestions == numQuestions
    ensures r.Some? && course == NeetPg ==>
      var d := r.value.levels;
      d == NeetDistribution(numQuestions)
      && d.Keys == {1, 2, 3, 4, 5} && d[1] + d[2] + d[3] + d[4] + d[5] == numQuestions
    ensures r.Some? && course == Usmle ==>
      var d := r.value.levels;
      d == UsmleDistribution(numQuestions)
      && d.Keys == {3, 4, 5} && d[3] + d[4] + d[5] == numQuestions
  {
    if course == NeetPg then
      NeetDistributionSum(numQuestions);
      Some(Prompt(course, subject, topic, numQuestions, NeetDistribution(numQuestions)))
    else if course == Usmle then
      UsmleDistributionSum(numQuestions);
      Some(Prompt(course, subject, topic, numQuestions, UsmleDistribution(numQuestions)))
    else None
  }

  /** The level quotas of every prompt are those of the course's even
      split: no two levels differ by more than one question, a lower level
      never gets fewer than a higher one, and none is negative when the
      count is not. */
  lemma PromptQuotasBalanced(course: string, subject: string, topic: string, numQuestions: int)
    requires IsKnownCourse(course)
    ensures var d := BuildPrompt(course, subject, topic, numQuestions).value.levels;
      forall lo, hi :: lo in d && hi in d && lo <= hi ==> d[hi] <= d[lo] <= d[hi] + 1
    ensures var d := BuildPrompt(course, subject, topic, numQuestions).value.levels;
      numQuestions >= 0 ==> forall level :: level in d ==> d[level] >= 0
  {
    if course == NeetPg {
      NeetQuotasBalanced(numQuestions);
    } else {
      UsmleQuotasBalanced(numQuestions);
    }
  }

  lemma NeetQuotasBalanced(numQuestions: int)
    ensures var d := NeetDistribution(numQuestions);
      forall lo, hi :: lo in d && hi in d && lo <= hi ==> d[hi] <= d[lo] <= d[hi] + 1
    ensures var d := NeetDistribution(numQuestions);
      numQuestions >= 0 ==> forall level :: level in d ==> d[level] >= 0
  {
    var d := NeetDistribution(numQuestions);
    NeetDistributionShape(numQuestions);
    forall lo, hi | lo in d && hi in d && lo <= hi ensures d[hi] <= d[lo] <= d[hi] + 1 {
      assert 1 <= lo <= hi <= 5;
    }
  }

  lemma UsmleQuotasBalanced(numQuestions: int)
    ensures var d := UsmleDistribution(numQuestions);
      forall lo, hi :: lo in d && hi in d && lo <= hi ==> d[hi] <= d[lo] <= d[hi] + 1
    ensures var d := UsmleDistribution(numQuestions);
      numQuestions >= 0 ==> forall level :: level in d ==> d[level] >= 0
  {
    var d := UsmleDistribution(numQuestions);
    UsmleDistributionShape(numQuestions);
    forall lo, hi | lo in d && hi in d && lo <= hi ensures d[hi] <= d[lo] <= d[hi] + 1 {
      assert 3 <= lo <= hi <= 5;
    }
  }

  /** What `generate_for_topic` returns or raises for one topic, asked as
      the handler's `call`-th request to the client. It fails with 'Invalid
      course' exactly for a course other than 'NEET PG' and 'USMLE'. */
  function TopicOutcome<Q>(
    course: string, subject: string, topic: string, call: nat, numQuestions: int,
    llm: (nat, Prompt) -> Option<string>, parse: string -> Parsed<Q>): (r: Result<seq<Q>, TopicError>)
    ensures r == Failure(InvalidCourse) <==> !IsKnownCourse(course)
  {
    match BuildPrompt(course, subject, topic, numQuestions)
    case None => Failure(InvalidCourse)
    case Some(prompt) =>
      match llm(call, prompt)
      case None => Failure(ClientError)
      case Some(reply) =>
        match parse(Strip(Unfenced(reply)))
        case Malformed => Failure(DecodeError)
        case OtherJson => Failure(NotAList)
        case JsonArray(questions) => Success(questions)
  }

  /** For a supported course, which way one topic ends: a client failure
      exactly when the client raised on this call, a decoding error exactly
      when the cleaned reply does not decode, 'not a list' exactly when it
      decodes to something else, and success exactly when it decodes to a
      list, which is then the result. */
  lemma TopicOutcomeCases<Q>(
    course: string, subject: string, topic: string, call: nat, numQuestions: int,
    llm: (nat, Prompt) -> Option<string>, parse: string -> Parsed<Q>)
    requires IsKnownCourse(course)
    ensures var reply := llm(call, BuildPrompt(course, subject, topic, numQuestions).value);
      var r := TopicOutcome(course, subject, topic, call, numQuestions, llm, parse);
      (r == Failure(ClientError) <==> reply.None?)
      && (r == Failure(DecodeError) <==>
            reply.Some? && parse(Strip(Unfenced(reply.value))).Malformed?)
      && (r == Failure(NotAList) <==>
            reply.Some? && parse(Strip(Unfenced(reply.value))).OtherJson?)
      && (r.Success? <==> reply.Some? && parse(Strip(Unfenced(reply.value))).JsonArray?)
      && (r.Success? ==> parse(Strip(Unfenced(reply.value))) == JsonArray(r.value))
  {
  }

  /** `generate_for_topic`, reassigning the reply text as the source does.
      It fails on an unknown course before the model is called, and
      otherwise returns exactly the list the decoder found in the reply with
      its fences and surrounding whitespace removed. */
  method GenerateForTopic<Q>(
    course: string, subject: string, topic: string, call: nat, numQuestions: int,
    llm: (nat, Prompt) -> Option<string>, parse: string -> Parsed<Q>)
    returns (r: Result<seq<Q>, TopicError>)
    ensures r == TopicOutcome(course, subject, topic, call, numQuestions, llm, parse)
    ensures r == Failure(InvalidCourse) <==> !IsKnownCourse(course)
    ensures r.Success? ==> exists reply ::
      llm(call, BuildPrompt(course, subject, topic, numQuestions).value) == Some(reply)
      && parse(Strip(Unfenced(reply))) == JsonArray(r.value)
  {
    var prompt: Prompt;
    if course == NeetPg {
      prompt := BuildPrompt(course, subject, topic, numQuestions).value;
    } else if course == Usmle {
      prompt := BuildPrompt(course, subject, topic, numQuestions).value;
    } else {
      return Failure(InvalidCourse);
    }
    var message := llm(call, prompt);
    if message.None? {
      return Failure(ClientError);
    }
    var responseText := message.value;
    responseText := StripFences(responseText);
    var questions := parse(Strip(responseText));
    if questions.Malformed? {
      return Failure(DecodeError);
    }
    if !questions.JsonArray? {
      return Failure(NotAList);
    }
    return Success(questions.items);
  }

  /** Generating topic by topic in order, `outcome(i, topic)` giving the
      result for the topic at position `i`: the first failing topic's error,
      or all the topics' questions in topic order. */
  function GenerateAll<Q, E>(topics: seq<string>, outcome: (nat, string) -> Result<seq<Q>, E>): Result<seq<Q>, E>
    decreases |topics|
  {
    if topics == [] then Success([])
    else
      match GenerateAll(topics[..|topics| - 1], outcome)
      case Failure(e) => Failure(e)
      case Success(earlier) =>
        match outcome(|topics| - 1, topics[|topics| - 1])
        case Failure(e) => Failure(e)
        case Success(questions) => Success(earlier + questions)
  }

  /** The concatenation of a list of lists. */
  function Flatten<Q>(lists: seq<seq<Q>>): seq<Q> {
    if lists == [] then [] else lists[0] + Flatten(lists[1..])
  }

  lemma {:induction false} FlattenSnoc<Q>(lists: seq<seq<Q>>, last: seq<Q>)
    ensures Flatten(lists + [last]) == Flatten(lists) + last
    decreases |lists|
  {
    if lists != [] {
      assert (lists + [last])[1..] == lists[1..] + [last];
      FlattenSnoc(lists[1..], last);
    }
  }

  /** When every topic succeeds, the result is the concatenation of the
      per-topic lists, in topic order. */
  lemma {:induction false} GenerateAllConcatenates<Q, E>(
    topics: seq<string>, outcome: (nat, string) -> Result<seq<Q>, E>, lists: seq<seq<Q>>)
    requires |lists| == |topics|
    requires forall i :: 0 <= i < |topics| ==> outcome(i, topics[i]) == Success(lists[i])
    ensures GenerateAll(topics, outcome) == Success(Flatten(lists))
    decreases |topics|
  {
    if topics != [] {
      var k := |topics| - 1;
      GenerateAllConcatenates(topics[..k], outcome, lists[..k]);
      FlattenSnoc(lists[..k], lists[k]);
      assert lists[..k] + [lists[k]] == lists;
    }
  }

  /** A failure among the first `k` topics is the failure of the whole list. */
  lemma {:induction false} GenerateAllExtendsFailure<Q, E>(
    topics: seq<string>, outcome: (nat, string) -> Result<seq<Q>, E>, k: nat)
    requires k <= |topics|
    requires GenerateAll(topics[..k], outcome).Failure?
    ensures GenerateAll(topics, outcome) == GenerateAll(topics[..k], outcome)
    decreases |topics| - k
  {
    if k < |topics| {
      var longer := topics[..k + 1];
      assert longer[..|longer| - 1] == topics[..k];
      GenerateAllExtendsFailure(topics, outcome, k + 1);
    } else {
      assert topics[..k] == topics;
    }
  }

  /** When topic `k` is the first to fail, the whole request fails with its
      error, and no later topic matters. */
  lemma GenerateAllFirstFailure<Q, E>(
    topics: seq<string>, outcome: (nat, string) -> Result<seq<Q>, E>, k: nat)
    requires k < |topics|
    requires outcome(k, topics[k]).Failure?
    requires forall j :: 0 <= j < k ==> outcome(j, topics[j]).Success?
    ensures GenerateAll(topics, outcome) == Failure(outcome(k, topics[k]).error)
  {
    var prefix := topics[..k + 1];
    var lists := seq(k, j requires 0 <= j < k => outcome(j, topics[j]).value);
    assert prefix[..k] == topics[..k];
    GenerateAllConcatenates(topics[..k], outcome, lists);
    GenerateAllExtendsFailure(topics, outcome, k + 1);
  }

  /** An error no topic produces is never the result. */
  lemma {:induction false} GenerateAllAvoidsError<Q, E>(
    topics: seq<string>, outcome: (nat, string) -> Result<seq<Q>, E>, e: E)
    requires forall i :: 0 <= i < |topics| ==> outcome(i, topics[i]) != Failure(e)
    ensures GenerateAll(topics, outcome) != Failure(e)
    decreases |topics|
  {
    if topics != [] {
      GenerateAllAvoidsError(topics[..|topics| - 1], outcome, e);
    }
  }

  /** A field counts as given when it is present and not the empty string. */
  predicate Given(field: Option<string>) {
    field.Some? && field.value != ""
  }

  /** `num_questions`, 10 when the request leaves it out. */
  function RequestedCount(req: Request): int {
    if req.numQuestions.Some? then req.numQuestions.value else 10
  }

  /** The validation cascade, checked in order: missing course or subject or
      no topics; then a count outside 5..50; then a course other than
      'NEET PG' and 'USMLE'. Each rejection applies only when the earlier
      checks passed. */
  function Validate(req: Request): (r: Option<Rejection>)
    ensures r == Some(MissingFields) <==>
      !Given(req.course) || !Given(req.subject) || req.topics == []
    ensures r == Some(CountOutOfRange) <==>
      Given(req.course) && Given(req.subject) && req.topics != []
      && (RequestedCount(req) < 5 || RequestedCount(req) > 50)
    ensures r == Some(UnsupportedCourse) <==>
      Given(req.course) && Given(req.subject) && req.topics != []
      && 5 <= RequestedCount(req) <= 50 && !IsKnownCourse(req.course.value)
    ensures r == None <==>
      Given(req.course) && Given(req.subject) && req.topics != []
      && 5 <= RequestedCount(req) <= 50 && IsKnownCourse(req.course.value)
  {
    if !Given(req.course) || !Given(req.subject) || req.topics == [] then Some(MissingFields)
    else if RequestedCount(req) < 5 || RequestedCount(req) > 50 then Some(CountOutOfRange)
    else if req.course.value !in [NeetPg, Usmle] then Some(UnsupportedCourse)
    else None
  }

  /** Each topic's outcome for a fixed course, subject and count; the topic
      at position `i` is the handler's `i`-th request to the client, since
      one request is made per topic, in order. */
  function TopicOutcomes<Q>(
    course: string, subject: string, numQuestions: int,
    llm: (nat, Prompt) -> Option<string>, parse: string -> Parsed<Q>): (nat, string) -> Result<seq<Q>, TopicError>
  {
    (call: nat, topic: string) => TopicOutcome(course, subject, topic, call, numQuestions, llm, parse)
  }

  /** For a supported course no topic fails with 'Invalid course', so
      neither does the request. */
  lemma KnownCourseNeverInvalid<Q>(
    course: string, subject: string, topics: seq<string>, numQuestions: int,
    llm: (nat, Prompt) -> Option<string>, parse: string -> Parsed<Q>)
    requires IsKnownCourse(course)
    ensures GenerateAll(topics, TopicOutcomes(course, subject, numQuestions, llm, parse)) != Failure(InvalidCourse)
  {
    var outcome := TopicOutcomes(course, subject, numQuestions, llm, parse);
    forall i | 0 <= i < |topics| ensures outcome(i, topics[i]) != Failure(InvalidCourse) {
      assert outcome(i, topics[i]) == TopicOutcome(course, subject, topics[i], i, numQuestions, llm, parse);
    }
    GenerateAllAvoidsError(topics, outcome, InvalidCourse);
  }

  /** The body of the handler's `try` block: generates topic by topic,
      growing the question list in place, and stops at the first topic that
      raises. */
  method GenerateTopics<Q>(
    course: string, subject: string, topics: seq<string>, numQuestions: int,
    llm: (nat, Prompt) -> Option<string>, parse: string -> Parsed<Q>)
    returns (r: Result<seq<Q>, TopicError>)
    ensures r == GenerateAll(topics, TopicOutcomes(course, subject, numQuestions, llm, parse))
  {
    var outcome := TopicOutcomes(course, subject, numQuestions, llm, parse);
    var allQuestions: seq<Q> := [];
    var i := 0;
    while i < |topics|
      invariant 0 <= i <= |topics|
      invariant GenerateAll(topics[..i], outcome) == Success(allQuestions)
    {
      var topicQuestions := GenerateForTopic(course, subject, topics[i], i, numQuestions, llm, parse);
      assert topicQuestions == outcome(i, topics[i]);
      assert topics[..i + 1][..i] == topics[..i];
      if topicQuestions.Failure? {
        GenerateAllExtendsFailure(topics, outcome, i + 1);
        return Failure(topicQuestions.error);
      }
      allQuestions := allQuestions + topicQuestions.value;
      i := i + 1;
    }
    assert topics[..i] == topics;
    return Success(allQuestions);
  }

  /** The `/api/generate` handler. A rejected request generates nothing. An
      accepted one reports the questions of all its topics in order, their
      number and the number of topics; the first topic that fails ends the
      request with its error, a decoding error reported apart from the
      rest. 'Invalid course' cannot arise. */
  method GenerateQuestions<Q>(
    req: Request, llm: (nat, Prompt) -> Option<string>, parse: string -> Parsed<Q>)
    returns (resp: Response<Q>)
    ensures Validate(req).Some? ==> resp == Rejected(Validate(req).value)
    ensures Validate(req).None? ==>
      match GenerateAll(req.topics,
        TopicOutcomes(req.course.value, req.subject.value, RequestedCount(req), llm, parse))
      case Success(questions) => resp == Generated(questions, |questions|, |req.topics|)
      case Failure(e) => resp == if e == DecodeError then ParseFailed else ApiFailed(e)
    ensures resp != ApiFailed(InvalidCourse)
  {
    var rejection := Validate(req);
    if rejection.Some? {
      return Rejected(rejection.value);
    }
    var course, subject := req.course.value, req.subject.value;
    var numQuestions := RequestedCount(req);
    KnownCourseNeverInvalid(course, subject, req.topics, numQuestions, llm, parse);
    var result := GenerateTopics(course, subject, req.topics, numQuestions, llm, parse);
    match result
    case Success(allQuestions) =>
      return Generated(allQuestions, |allQuestions|, |req.topics|);
    case Failure(e) =>
      return if e == DecodeError then ParseFailed else ApiFailed(e);
  }
}
