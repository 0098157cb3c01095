/**
 * The chat endpoint: request validation, the prompt sent upstream, the choice
 * between the upstream text and the local keyword responder, and the replies.
 */
module ChatRoute {
  import opened Wrappers
  import opened Text

  // ---------------------------------------------------------------------------
  // Requests and responses
  // ---------------------------------------------------------------------------

  /** A message's content: a string, or some other value and the text a template literal makes of it. */
  datatype Content = Plain(s: string) | Other(shown: string)

  datatype Message = Message(role: string, content: Content)

  /** The `messages` field: missing, falsy or not an array, or an array of messages. */
  datatype MessagesField = NotAnArray | MessageList(list: seq<Message>)

  /** A request body that parsed as an object. */
  datatype Request = Request(messages: MessagesField, jsonContext: Option<string>)

  /**
   * What the upstream model call yields. `Unavailable` covers a thrown fetch,
   * the timeout, a non-ok status, an unparsable or falsy body, and generated
   * text that is not a string. `first` and `generated` are the string
   * `generated_text` of the first element or of the object, if any.
   */
  datatype Upstream = Unavailable | ArrayReply(first: Option<string>) | ObjectReply(generated: Option<string>)

  datatype ResponseBody = MessageBody(message: string) | ErrorBody(error: string)

  datatype Response = Response(status: nat, body: ResponseBody)

  const InvalidFormat: string := "Invalid request format"
  const InternalError: string := "Internal server error processing chat request"
  const ConnectionFallback: string :=
    "I'm sorry, but I'm having trouble connecting to the AI service right now. Here are some examples of valid JSON:\n\n```json\n{\n  \"user\": {\n    \"name\": \"John Doe\",\n    \"email\": \"john@example.com\",\n    \"isActive\": true\n  }\n}\n```\n\nCould you please try again in a moment?"

  /** A JavaScript truthiness test of the optional context string. */
  predicate IsTruthy(ctx: Option<string>) {
    ctx.Some? && ctx.value != []
  }

  // ---------------------------------------------------------------------------
  // The prompt
  // ---------------------------------------------------------------------------

  const Preamble: string :=
    "You are a helpful JSON assistant. Please help with JSON generation, explanation, and validation.\n"

  /** At most this many characters of the prompt go upstream. */
  const UpstreamLimit: nat := 500

  function Shown(c: Content): string {
    match c
    case Plain(s) => s
    case Other(shown) => shown
  }

  function Speaker(role: string): string {
    if role == "user" then "Human" else "AI"
  }

  function HistoryLine(m: Message): string {
    Speaker(m.role) + ": " + Shown(m.content)
  }

  /** The earlier turns, one line each. */
  function History(ms: seq<Message>): string {
    Join(seq(|ms|, i requires 0 <= i < |ms| => HistoryLine(ms[i])), "\n")
  }

  /** The editor's document, fenced as a json block, when there is one. */
  function ContextBlock(ctx: Option<string>): (r: string)
    ensures IsTruthy(ctx) ==> OccursAt(r, "```json\n" + ctx.value + "\n```", |"\nCurrent JSON in the editor:\n"|)
    ensures IsTruthy(ctx) ==> r == "\nCurrent JSON in the editor:\n```json\n" + ctx.value + "\n```\n"
    ensures !IsTruthy(ctx) ==> r == []
  {
    if IsTruthy(ctx) then
      var r := "\nCurrent JSON in the editor:\n" + ("```json\n" + ctx.value + "\n```") + "\n";
      assert r == "\nCurrent JSON in the editor:\n```json\n" + ctx.value + "\n```\n";
      r
    else []
  }

  /** The closing turn: the last message as the human's line, then the cue for the answer. */
  function Cue(last: Message): string {
    "\nHuman: " + Shown(last.content) + "\nAI: "
  }

  function BuildPrompt(ms: seq<Message>, ctx: Option<string>): (r: string)
    requires ms != []
    ensures StartsWith(r, Preamble)
    ensures OccursAt(r, History(ms[..|ms| - 1]), |Preamble|)
    ensures OccursAt(r, ContextBlock(ctx), |Preamble| + |History(ms[..|ms| - 1])|)
    ensures |r| >= |Cue(ms[|ms| - 1])| && r[|r| - |Cue(ms[|ms| - 1])|..] == Cue(ms[|ms| - 1])
    ensures |r| == |Preamble| + |History(ms[..|ms| - 1])| + |ContextBlock(ctx)| + |Cue(ms[|ms| - 1])|
  {
    var h, b, c := History(ms[..|ms| - 1]), ContextBlock(ctx), Cue(ms[|ms| - 1]);
    FourParts(Preamble, h, b, c);
    Preamble + h + b + c
  }

  /** Where each of four joined parts lies in the whole. */
  lemma FourParts(a: string, h: string, b: string, c: string)
    ensures var r := a + h + b + c;
            && StartsWith(r, a)
            && OccursAt(r, h, |a|)
            && OccursAt(r, b, |a| + |h|)
            && |r| >= |c| && r[|r| - |c|..] == c
  {
    var r := a + h + b + c;
    assert r[..|a|] == a;
    assert r[|r| - |c|..] == c;
    assert forall k :: 0 <= k < |h| ==> r[|a| + k] == h[k];
    assert forall k :: 0 <= k < |b| ==> r[|a| + |h| + k] == b[k];
  }

  /** `prompt.slice(0, 500)`. */
  function UpstreamInput(prompt: string): (r: string)
    ensures |r| <= UpstreamLimit
    ensures |r| == if |prompt| <= UpstreamLimit then |prompt| else UpstreamLimit
    ensures StartsWith(prompt, r)
  {
    if |prompt| <= UpstreamLimit then prompt else prompt[..UpstreamLimit]
  }

  // ---------------------------------------------------------------------------
  // The local responder
  // ---------------------------------------------------------------------------

  /** The local responder's fixed replies. */
  datatype Canned =
    | Greeting | UserProfileSample | ProductSample | GenerateHelp
    | Explanation | FixWithContext | FixWithoutContext | Introduction

  const GreetingText: string :=
    "Hello! I'm your JSON assistant. How can I help you today?"

  const UserProfileText: string :=
    "Here's a simple user profile in JSON format:\n\n```json\n{\n  \"user\": {\n    \"id\": 123,\n    \"name\": \"John Doe\",\n    \"email\": \"john@example.com\",\n    \"isActive\": true,\n    \"roles\": [\"user\", \"admin\"],\n    \"preferences\": {\n      \"theme\": \"dark\",\n      \"notifications\": true\n    }\n  }\n}\n```\n\nYou can click 'Apply to Editor' to use this JSON."

  const ProductText: string :=
    "Here's a simple product structure in JSON format:\n\n```json\n{\n  \"product\": {\n    \"id\": \"p123\",\n    \"name\": \"Wireless Headphones\",\n    \"price\": 99.99,\n    \"inStock\": true,\n    \"categories\": [\"electronics\", \"audio\"],\n    \"specs\": {\n      \"color\": \"black\",\n      \"batteryLife\": \"20 hours\"\n    }\n  }\n}\n```\n\nYou can click 'Apply to Editor' to use this JSON."

  const GenerateHelpText: string :=
    "I can help you generate JSON. What kind of structure do you need? For example, I can create user profiles, product listings, configuration files, etc."

  const ExplanationText: string :=
    "JSON (JavaScript Object Notation) is a lightweight data interchange format. It's easy for humans to read and write and easy for machines to parse and generate. JSON has the following structure:\n\n- Objects are enclosed in curly braces {}\n- Arrays are enclosed in square brackets []\n- Name/value pairs are separated by a colon\n- Each pair is separated by commas\n- Strings must use double quotes\n\nFor example:\n```json\n{\n  \"name\": \"John\",\n  \"age\": 30,\n  \"isActive\": true,\n  \"hobbies\": [\"reading\", \"cycling\"]\n}\n```"

  const FixWithContextText: string :=
    "I notice you have some JSON in the editor. Some common JSON errors include missing commas between properties, unclosed brackets or braces, and missing quotes around property names. Would you like me to help fix any specific issues?"

  const FixWithoutContextText: string :=
    "To validate JSON, I'll need to see the code you're working with. Common JSON errors include:\n\n1. Missing commas between properties\n2. Unclosed brackets or braces\n3. Missing quotes around property names\n4. Trailing commas in arrays or objects"

  const IntroductionText: string :=
    "I'm your JSON assistant. I can help you generate, validate, or explain JSON structures. What would you like to do today?"

  /** The endpoint's fixed texts: one per local reply, and the connection fallback. */
  datatype Replies = Replies(
    greeting: string, userProfile: string, product: string, generateHelp: string,
    explanation: string, fixWithContext: string, fixWithoutContext: string,
    introduction: string, fallback: string)

  /** The texts the endpoint ships with. */
  const SourceReplies: Replies := Replies(
    GreetingText, UserProfileText, ProductText, GenerateHelpText,
    ExplanationText, FixWithContextText, FixWithoutContextText,
    IntroductionText, ConnectionFallback)

  function CannedText(c: Canned, rs: Replies): string {
    match c
    case Greeting => rs.greeting
    case UserProfileSample => rs.userProfile
    case ProductSample => rs.product
    case GenerateHelp => rs.generateHelp
    case Explanation => rs.explanation
    case FixWithContext => rs.fixWithContext
    case FixWithoutContext => rs.fixWithoutContext
    case Introduction => rs.introduction
  }

  predicate NonEmptyReplies(rs: Replies) {
    && rs.greeting != [] && rs.userProfile != [] && rs.product != [] && rs.generateHelp != []
    && rs.explanation != [] && rs.fixWithContext != [] && rs.fixWithoutContext != []
    && rs.introduction != [] && rs.fallback != []
  }

  /** Every text the endpoint ships with is non-empty. */
  lemma SourceRepliesNonEmpty()
    ensures NonEmptyReplies(SourceReplies)
  {
    assert |GreetingText| > 0;
    assert |UserProfileText| > 0;
    assert |ProductText| > 0;
    assert |GenerateHelpText| > 0;
    assert |ExplanationText| > 0;
    assert |FixWithContextText| > 0;
    assert |FixWithoutContextText| > 0;
    assert |IntroductionText| > 0;
    assert |ConnectionFallback| > 0;
  }

  /** Whether the text contains any of the words. */
  predicate MentionsAny(s: string, words: seq<string>)
    decreases |words|
  {
    words != [] && (Contains(s, words[0]) || MentionsAny(s, words[1..]))
  }

  /** What a message asks about, decided by the first keyword group it mentions. */
  datatype Topic = Greet | Generate | Explain | Fix | General

  /** The keyword groups in the order they are tried. */
  const Rules: seq<(seq<string>, Topic)> := [
    (["hello", "hi "], Greet),
    (["generate", "create"], Generate),
    (["explain", "what is"], Explain),
    (["fix", "validate", "error"], Fix)
  ]

  /** A table-driven reading of the keyword rules: the topic of the first group mentioned. */
  function FirstTopic(rules: seq<(seq<string>, Topic)>, s: string): Topic
    decreases |rules|
  {
    if rules == [] then General
    else if MentionsAny(s, rules[0].0) then rules[0].1
    else FirstTopic(rules[1..], s)
  }

  function TopicOf(c: Canned): Topic {
    match c
    case Greeting => Greet
    case UserProfileSample | ProductSample | GenerateHelp => Generate
    case Explanation => Explain
    case FixWithContext | FixWithoutContext => Fix
    case Introduction => General
  }

  /** generateSimpleResponse: keyword matching on the lower-cased message. */
  function SimpleResponse(message: string, jsonContext: Option<string>): (r: Canned)
    ensures r == FixWithContext ==> IsTruthy(jsonContext)
    ensures r == FixWithoutContext ==> !IsTruthy(jsonContext)
  {
    var m := ToLower(message);
    if Contains(m, "hello") || Contains(m, "hi ") then Greeting
    else if Contains(m, "generate") || Contains(m, "create") then
      if Contains(m, "user") || Contains(m, "profile") then UserProfileSample
      else if Contains(m, "product") then ProductSample
      else GenerateHelp
    else if Contains(m, "explain") || Contains(m, "what is") then Explanation
    else if Contains(m, "fix") || Contains(m, "validate") || Contains(m, "error") then
      if IsTruthy(jsonContext) then FixWithContext else FixWithoutContext
    else Introduction
  }

  /** The if-chain of the responder agrees with the table of keyword groups. */
  lemma SimpleResponseFollowsRules(message: string, jsonContext: Option<string>)
    ensures TopicOf(SimpleResponse(message, jsonContext)) == FirstTopic(Rules, ToLower(message))
  {
    assert Rules[1..][1..][1..][1..] == [];
  }

  /** The sample structures a generate request can name, in the order they are tried. */
  const Samples: seq<(seq<string>, Canned)> := [
    (["user", "profile"], UserProfileSample),
    (["product"], ProductSample)
  ]

  /** A table-driven reading of the generate branch: the first sample named, else the help text. */
  function FirstSample(samples: seq<(seq<string>, Canned)>, s: string): Canned
    decreases |samples|
  {
    if samples == [] then GenerateHelp
    else if MentionsAny(s, samples[0].0) then samples[0].1
    else FirstSample(samples[1..], s)
  }

  /** Within a generate request the first sample named wins, and the help text is the default. */
  lemma GenerateFollowsSamples(message: string, jsonContext: Option<string>)
    requires FirstTopic(Rules, ToLower(message)) == Generate
    ensures SimpleResponse(message, jsonContext) == FirstSample(Samples, ToLower(message))
  {
    SimpleResponseFollowsRules(message, jsonContext);
    assert Samples[1..][1..] == [];
  }

  /** Within a fix request the reply depends only on whether there is a document. */
  lemma FixFollowsContext(message: string, jsonContext: Option<string>)
    requires FirstTopic(Rules, ToLower(message)) == Fix
    ensures SimpleResponse(message, jsonContext) == if IsTruthy(jsonContext) then FixWithContext else FixWithoutContext
  {
    SimpleResponseFollowsRules(message, jsonContext);
  }

  /** The responder ignores letter case. */
  lemma SimpleResponseIgnoresCase(message: string, jsonContext: Option<string>)
    ensures SimpleResponse(ToLower(message), jsonContext) == SimpleResponse(message, jsonContext)
  {
    ToLowerIdempotent(message);
  }

  /** The editor's document only matters to a request about fixing or validating. */
  lemma ContextMattersOnlyForFix(message: string, c1: Option<string>, c2: Option<string>)
    requires FirstTopic(Rules, ToLower(message)) != Fix
    ensures SimpleResponse(message, c1) == SimpleResponse(message, c2)
  {
    SimpleResponseFollowsRules(message, c1);
  }

  /** An empty context string counts as no context, in the prompt and in the responder. */
  lemma EmptyContextIsAbsent(ms: seq<Message>, message: string)
    requires ms != []
    ensures BuildPrompt(ms, Some("")) == BuildPrompt(ms, None)
    ensures SimpleResponse(message, Some("")) == SimpleResponse(message, None)
  {
  }

  /** A greeting wins over every other keyword. */
  lemma GreetingFirst(message: string, jsonContext: Option<string>)
    requires Contains(ToLower(message), "hello")
    ensures SimpleResponse(message, jsonContext) == Greeting
  {
  }

  // ---------------------------------------------------------------------------
  // The endpoint
  // ---------------------------------------------------------------------------

  /** The generated text found in the upstream answer. */
  function GeneratedText(u: Upstream): Option<string> {
    match u
    case Unavailable => None
    case ArrayReply(first) => first
    case ObjectReply(generated) => generated
  }

  /** The trimmed upstream text if it is not blank, else the local reply. */
  function ChooseReply(local: string, u: Upstream): (r: string)
    ensures GeneratedText(u).Some? && !IsBlank(GeneratedText(u).value) ==>
              r == Trim(GeneratedText(u).value) && r != [] &&
              !IsWhitespace(r[0]) && !IsWhitespace(r[|r| - 1])
    ensures (GeneratedText(u).None? || IsBlank(GeneratedText(u).value)) ==> r == local
  {
    match GeneratedText(u)
    case Some(g) => if Trim(g) != [] then Trim(g) else local
    case None => local
  }

  /**
   * POST /api/chat. `upstream` stands for the model call on the truncated
   * prompt; the endpoint as shipped answers with `SourceReplies`.
   */
  function Handle(req: Option<Request>, upstream: string -> Upstream, rs: Replies): (resp: Response)
    ensures req.None? ==> resp == Response(500, ErrorBody(InternalError))
    ensures req.Some? && req.value.messages.NotAnArray? ==> resp == Response(400, ErrorBody(InvalidFormat))
    ensures req.Some? && req.value.messages == MessageList([]) ==> resp == Response(500, ErrorBody(InternalError))
    ensures resp.status == 200 <==> req.Some? && req.value.messages.MessageList? && req.value.messages.list != []
    ensures resp.status == 200 ==> resp.body.MessageBody?
    ensures resp.status == 200 && NonEmptyReplies(rs) ==> resp.body.message != []
    ensures resp.status == 200 && req.value.messages.list[|req.value.messages.list| - 1].content.Other? ==>
              resp.body.message == rs.fallback
    ensures resp.status == 200 && req.value.messages.list[|req.value.messages.list| - 1].content.Plain? ==>
              var ms, ctx := req.value.messages.list, req.value.jsonContext;
              var local := CannedText(SimpleResponse(ms[|ms| - 1].content.s, ctx), rs);
              var u := upstream(UpstreamInput(BuildPrompt(ms, ctx)));
              resp.body.message == (if GeneratedText(u).Some? && !IsBlank(GeneratedText(u).value)
                                    then Trim(GeneratedText(u).value) else local)
  {
    match req
    case None => Response(500, ErrorBody(InternalError))
    case Some(Request(NotAnArray, _)) => Response(400, ErrorBody(InvalidFormat))
    case Some(Request(MessageList(ms), ctx)) =>
      if ms == [] then Response(500, ErrorBody(InternalError))   // messages[-1].content throws
      else
        match ms[|ms| - 1].content
        case Other(_) => Response(200, MessageBody(rs.fallback))   // toLowerCase throws
        case Plain(last) =>
          var local := CannedText(SimpleResponse(last, ctx), rs);
          var reply := ChooseReply(local, upstream(UpstreamInput(BuildPrompt(ms, ctx))));
          Response(200, MessageBody(reply))
  }
}
