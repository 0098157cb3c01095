/**
 * The chat panel: the conversation state, the request it sends, the reply it
 * records, how a message is cut into text and code blocks, and which fenced
 * json block "Apply to Editor" takes.
 */
module Assistant {
  import opened Wrappers
  import opened Text
  import ChatRoute

  // ---------------------------------------------------------------------------
  // Conversation
  // ---------------------------------------------------------------------------

  datatype Role = User | Bot

  datatype ChatMessage = ChatMessage(role: Role, content: string)

  /** The transcript and the text in the input box. */
  datatype Chat = Chat(messages: seq<ChatMessage>, input: string)

  const Welcome: string :=
    "Hello! I'm your JSON assistant. I can help you generate, fix, or explain JSON. What would you like to do today?"

  const InitialChat: Chat := Chat([ChatMessage(Bot, Welcome)], "")

  function RoleName(r: Role): string {
    match r
    case User => "user"
    case Bot => "assistant"
  }

  /** A transcript entry as it appears in the request body. */
  function ToWire(m: ChatMessage): ChatRoute.Message {
    ChatRoute.Message(RoleName(m.role), ChatRoute.Plain(m.content))
  }

  function Wire(ms: seq<ChatMessage>): (r: seq<ChatRoute.Message>)
    ensures |r| == |ms|
    ensures forall i :: 0 <= i < |ms| ==> r[i] == ToWire(ms[i])
  {
    seq(|ms|, i requires 0 <= i < |ms| => ToWire(ms[i]))
  }

  /**
   * handleSendMessage up to the request: a blank input does nothing; otherwise
   * the input becomes a user turn, the box is cleared, and the whole transcript
   * is sent with the document as context when the document is valid JSON.
   */
  function Send(chat: Chat, document: string, documentIsValid: bool): (r: (Chat, Option<ChatRoute.Request>))
    ensures IsBlank(chat.input) ==> r == (chat, None)
    ensures !IsBlank(chat.input) ==>
              && r.0.messages == chat.messages + [ChatMessage(User, chat.input)]
              && r.0.input == []
              && r.1.Some?
              && r.1.value.messages.MessageList?
              && r.1.value.messages.list == Wire(r.0.messages)
              && (r.1.value.jsonContext.Some? <==> documentIsValid)
              && (documentIsValid ==> r.1.value.jsonContext == Some(document))
  {
    if IsBlank(chat.input) then (chat, None)
    else
      var messages := chat.messages + [ChatMessage(User, chat.input)];
      var context := if documentIsValid then Some(document) else None;
      (Chat(messages, []), Some(ChatRoute.Request(ChatRoute.MessageList(Wire(messages)), context)))
  }

  /** The answer arrives: a 2xx reply is appended; an error is only shown as a notice. */
  function Receive(chat: Chat, resp: ChatRoute.Response): (r: Chat)
    ensures r.input == chat.input
    ensures 200 <= resp.status < 300 && resp.body.MessageBody? ==>
              r.messages == chat.messages + [ChatMessage(Bot, resp.body.message)]
    ensures !(200 <= resp.status < 300) ==> r == chat
  {
    if 200 <= resp.status < 300 && resp.body.MessageBody? then
      Chat(chat.messages + [ChatMessage(Bot, resp.body.message)], chat.input)
    else chat
  }

  /**
   * A full exchange with the endpoint: a non-blank question always gets a
   * non-empty answer appended after it, whatever the upstream model does, when
   * the endpoint's fixed texts are non-empty (as the shipped ones are).
   */
  lemma ExchangeAppendsAnswer(chat: Chat, document: string, valid: bool, upstream: string -> ChatRoute.Upstream,
                              rs: ChatRoute.Replies)
    requires !IsBlank(chat.input) && ChatRoute.NonEmptyReplies(rs)
    ensures var (sent, req) := Send(chat, document, valid);
            var after := Receive(sent, ChatRoute.Handle(req, upstream, rs));
            && |after.messages| == |chat.messages| + 2
            && after.messages[..|chat.messages|] == chat.messages
            && after.messages[|chat.messages|] == ChatMessage(User, chat.input)
            && after.messages[|chat.messages| + 1].role == Bot
            && after.messages[|chat.messages| + 1].content != []
            && after.input == []
  {
    var (sent, req) := Send(chat, document, valid);
    assert |req.value.messages.list| == |chat.messages| + 1;
    ReceiveAnswer(chat, sent, ChatRoute.Handle(req, upstream, rs));
  }

  /** A successful non-empty answer lands right after the turn that asked for it. */
  lemma ReceiveAnswer(chat: Chat, sent: Chat, resp: ChatRoute.Response)
    requires sent.messages == chat.messages + [ChatMessage(User, chat.input)] && sent.input == []
    requires resp.status == 200 && resp.body.MessageBody? && resp.body.message != []
    ensures var after := Receive(sent, resp);
            && |after.messages| == |chat.messages| + 2
            && after.messages[..|chat.messages|] == chat.messages
            && after.messages[|chat.messages|] == ChatMessage(User, chat.input)
            && after.messages[|chat.messages| + 1] == ChatMessage(Bot, resp.body.message)
            && after.input == []
  {
    var after := Receive(sent, resp);
    assert after.messages == chat.messages + [ChatMessage(User, chat.input)] + [ChatMessage(Bot, resp.body.message)];
  }

  // ---------------------------------------------------------------------------
  // Extracting the block that "Apply to Editor" takes
  // ---------------------------------------------------------------------------

  const Opener: string := "```json\n"
  const Closer: string := "\n```"

  /**
   * The regular expression /```json\n([\s\S]*?)\n```/ matches with its opener at
   * `i` and its closer at `j`: the lazy group stops at the first closer after
   * the opener.
   */
  predicate FenceMatch(m: string, i: nat, j: nat) {
    && OccursAt(m, Opener, i)
    && i + |Opener| <= j
    && OccursAt(m, Closer, j)
    && forall k :: i + |Opener| <= k < j ==> !OccursAt(m, Closer, k)
  }

  /** Where the regular expression matches first, scanning from the left. */
  function FenceSpan(m: string): (r: Option<(nat, nat)>)
    ensures r.Some? ==> FenceMatch(m, r.value.0, r.value.1)
    ensures r.Some? ==> forall i, j :: FenceMatch(m, i, j) ==> r.value.0 < i || (r.value.0 == i && r.value.1 == j)
    ensures r.None? ==> forall i, j :: !FenceMatch(m, i, j)
  {
    match FindFrom(m, Opener, 0)
    case None => None
    case Some(i) =>
      match FindFrom(m, Closer, i + |Opener|)
      case None => None
      case Some(j) =>
        assert forall i': nat, j': nat :: FenceMatch(m, i', j') && i' == i ==> j' <= j by {
          assert OccursAt(m, Closer, j);
        }
        Some((i, j))
  }

  /** The captured group of the first match, possibly empty. */
  function ExtractJsonBlock(m: string): (r: Option<string>)
    ensures r.Some? <==> FenceSpan(m).Some?
    ensures r.Some? ==> r.value == m[FenceSpan(m).value.0 + |Opener|..FenceSpan(m).value.1]
    ensures r.Some? ==> !Contains(r.value, Closer)
  {
    match FenceSpan(m)
    case None => None
    case Some((i, j)) =>
      var x := m[i + |Opener|..j];
      forall k: nat ensures OccursAt(x, Closer, k) ==> OccursAt(m, Closer, i + |Opener| + k) {
        SliceOccurs(m, i + |Opener|, j, Closer, k);
      }
      ContainsMeansOccurs(x, Closer);
      Some(x)
  }

  /** An occurrence inside a slice is an occurrence in the whole string. */
  lemma SliceOccurs(m: string, lo: nat, hi: nat, pat: string, k: nat)
    requires lo <= hi <= |m|
    ensures OccursAt(m[lo..hi], pat, k) ==> OccursAt(m, pat, lo + k)
  {
  }

  // ---------------------------------------------------------------------------
  // Rendering a message
  // ---------------------------------------------------------------------------

  /** What the panel shows for one piece of a message. */
  datatype Segment = TextSegment(text: string) | CodeSegment(language: string, code: string)

  /** A code block labelled json carries the "Apply to Editor" button. */
  predicate HasApplyButton(s: Segment) {
    s.CodeSegment? && s.language == "json"
  }

  const Fence: string := "```"

  /**
   * Piece `index` of the message split at ```: even pieces are prose, odd
   * pieces are code blocks whose first line names the language.
   */
  function RenderPart(part: string, index: nat): (r: Option<Segment>)
    ensures index % 2 == 0 ==> (r.Some? <==> !IsBlank(part)) && (r.Some? ==> r.value == TextSegment(part))
    ensures index % 2 == 1 && r.Some? ==>
              && r.value.CodeSegment?
              && !IsBlank(r.value.code)
              && r.value.language != [] && !IsWhitespace(r.value.language[0])
              && !IsWhitespace(r.value.language[|r.value.language| - 1])
              && !Contains(r.value.language, "\n")
    ensures index % 2 == 1 ==>
              var t := Trim(part);
              r == if IsBlank(CodeText(t)) then None else Some(CodeSegment(CodeLanguage(LabelLine(t)), CodeText(t)))
  {
    if index % 2 == 0 then
      if IsBlank(part) then None else Some(TextSegment(part))
    else
      var t := Trim(part);
      var lines := Split(t, "\n");
      SplitPartsFree(t, "\n");
      LinesOfPiece(t);
      var code := if |lines| > 1 then Join(lines[1..], "\n") else t;
      if IsBlank(code) then None else Some(CodeSegment(CodeLanguage(lines[0]), code))
  }

  /** The first line of a trimmed code piece: up to its first newline, or all of it. */
  function LabelLine(t: string): string {
    match FindFrom(t, "\n", 0)
    case Some(i) => t[..i]
    case None => t
  }

  /** The code of a trimmed code piece: what follows its first newline, or all of it. */
  function CodeText(t: string): string {
    match FindFrom(t, "\n", 0)
    case Some(i) => t[i + 1..]
    case None => t
  }

  /** Splitting a piece into lines and joining all but the first finds the same label and code. */
  lemma LinesOfPiece(t: string)
    ensures Split(t, "\n")[0] == LabelLine(t)
    ensures |Split(t, "\n")| > 1 ==> Join(Split(t, "\n")[1..], "\n") == CodeText(t)
    ensures |Split(t, "\n")| == 1 ==> CodeText(t) == t
  {
    match FindFrom(t, "\n", 0)
    case None =>
    case Some(i) =>
      SplitAtFind(t, "\n", i);
      JoinSplit(t[i + 1..], "\n");
      assert Split(t, "\n")[1..] == Split(t[i + 1..], "\n");
  }

  /** The language a code block's first line names; "text" when the line is blank. */
  function CodeLanguage(line: string): (lang: string)
    ensures lang != [] && !IsWhitespace(lang[0]) && !IsWhitespace(lang[|lang| - 1])
    ensures !Contains(line, "\n") ==> !Contains(lang, "\n")
    ensures !IsBlank(line) ==> lang == Trim(line)
    ensures IsBlank(line) ==> lang == "text"
  {
    if !IsBlank(line) then
      TrimInsideAll(line, "\n");
      Trim(line)
    else
      TextLabel();
      "text"
  }

  /** When trimming keeps no pattern out, neither does the trimmed text contain it. */
  lemma TrimInsideAll(s: string, pat: string)
    ensures !Contains(s, pat) ==> !Contains(Trim(s), pat)
  {
    if !Contains(s, pat) { TrimInside(s, pat); }
  }

  // Solver helper: the characters of the literal "text", stated once.
  lemma TextLabel()
    ensures var l := "text"; |l| == 4 && !IsWhitespace(l[0]) && !IsWhitespace(l[3]) && !Contains(l, "\n")
  {
    NoCharNoFind("text", '\n');
  }

  /** Trimming cannot introduce a pattern the text did not contain. */
  lemma TrimInside(s: string, pat: string)
    requires !Contains(s, pat)
    ensures !Contains(Trim(s), pat)
  {
    var t := Trim(s);
    var a := SkipWhitespace(s, 0);
    forall k: nat ensures OccursAt(t, pat, k) ==> OccursAt(s, pat, a + k) {
    }
    ContainsMeansOccurs(s, pat);
    ContainsMeansOccurs(t, pat);
  }

  /** Each piece of the split message, rendered in place (`null` where nothing shows). */
  function RenderParts(parts: seq<string>): (r: seq<Option<Segment>>)
    ensures |r| == |parts|
    ensures forall k :: 0 <= k < |parts| ==> r[k] == RenderPart(parts[k], k)
  {
    seq(|parts|, k requires 0 <= k < |parts| => RenderPart(parts[k], k))
  }

  /** The rendered pieces from `index` on, with the empty ones dropped, in order. */
  function Collect(rendered: seq<Option<Segment>>, index: nat): seq<Segment>
    requires index <= |rendered|
    decreases |rendered| - index
  {
    if index == |rendered| then []
    else
      match rendered[index]
      case None => Collect(rendered, index + 1)
      case Some(seg) => [seg] + Collect(rendered, index + 1)
  }

  /** The segments shown for a message, in order. */
  function Render(content: string): seq<Segment> {
    Collect(RenderParts(Split(content, Fence)), 0)
  }

  /** Every piece that renders is shown. */
  lemma {:induction false} CollectKeeps(rendered: seq<Option<Segment>>, index: nat, k: nat)
    requires index <= k < |rendered|
    requires rendered[k].Some?
    ensures rendered[k].value in Collect(rendered, index)
    decreases k - index
  {
    if index < k {
      CollectKeeps(rendered, index + 1, k);
    }
  }

  /** Every segment shown is a piece of the message, rendered in place. */
  lemma {:induction false} CollectSound(rendered: seq<Option<Segment>>, index: nat, s: Segment)
    requires index <= |rendered|
    requires s in Collect(rendered, index)
    ensures exists k :: index <= k < |rendered| && rendered[k] == Some(s)
    decreases |rendered| - index
  {
    if rendered[index] != Some(s) {
      CollectSound(rendered, index + 1, s);
    }
  }

  // ---------------------------------------------------------------------------
  // A fenced json block is offered and applied
  // ---------------------------------------------------------------------------

  /** A string with no backquote before `p` and an occurrence at `p` finds it there. */
  lemma FindAtFirstBackquote(m: string, pat: string, from: nat, p: nat)
    requires pat != [] && pat[0] == '`'
    requires from <= p && OccursAt(m, pat, p)
    requires forall j :: from <= j < p ==> m[j] != '`'
    ensures FindFrom(m, pat, from) == Some(p)
  {
    forall j | from <= j < p ensures !OccursAt(m, pat, j) {
      assert m[j + 0] != pat[0];
    }
  }

  /**
   * A pattern whose second character is a backquote and whose first is not is
   * found at `p` when no backquote lies strictly between `from` and `p`.
   */
  lemma FindAtSecondBackquote(m: string, pat: string, from: nat, p: nat)
    requires |pat| >= 2 && pat[0] != '`' && pat[1] == '`'
    requires from <= p && OccursAt(m, pat, p)
    requires forall j :: from < j < p ==> m[j] != '`'
    ensures FindFrom(m, pat, from) == Some(p)
  {
    forall j | from <= j < p ensures !OccursAt(m, pat, j) {
      if j + 1 < p {
        assert m[j + 1] != pat[1];
      } else {
        assert m[p + 0] == pat[0];
        assert m[j + 1] != pat[1];
      }
    }
  }

  /** Where the parts of `pre + op + x + cl + post` lie, and which of them are backquote-free. */
  lemma FenceLayout(pre: string, op: string, x: string, cl: string, post: string)
    requires '`' !in pre && '`' !in x
    ensures var m := pre + op + x + cl + post;
            var i, j := |pre|, |pre| + |op| + |x|;
            && OccursAt(m, op, i)
            && OccursAt(m, cl, j)
            && m[i + |op|..j] == x
            && (forall k :: 0 <= k < i ==> m[k] != '`')
            && (forall k :: i + |op| <= k < j ==> m[k] != '`')
  {
    var m := pre + op + x + cl + post;
    var i, j := |pre|, |pre| + |op| + |x|;
    FiveSlices(pre, op, x, cl, post);
    LayoutFacts(m, pre, op, x, cl, i, j);
  }

  /** The slices of a five-part concatenation are its parts. */
  lemma FiveSlices(a: string, b: string, c: string, d: string, e: string)
    ensures var m := a + b + c + d + e;
            var i, j := |a|, |a| + |b| + |c|;
            && j + |d| <= |m|
            && m[..i] == a && m[i..i + |b|] == b && m[i + |b|..j] == c && m[j..j + |d|] == d
  {
    var m := a + b + c + d + e;
    var i, j := |a|, |a| + |b| + |c|;
    assert m == (a + b + c) + (d + e);
    assert m[..j] == a + b + c;
    assert m[j..] == d + e;
    assert m[j..j + |d|] == m[j..][..|d|];
    assert m[i + |b|..j] == m[..j][i + |b|..];
    assert m[i..i + |b|] == m[..j][i..i + |b|];
    assert m[..i] == m[..j][..i];
  }

  /** Occurrences and backquote-free stretches read off the slices of `m`. */
  lemma LayoutFacts(m: string, pre: string, op: string, x: string, cl: string, i: nat, j: nat)
    requires i + |op| <= j && j + |cl| <= |m|
    requires m[..i] == pre && m[i..i + |op|] == op && m[i + |op|..j] == x && m[j..j + |cl|] == cl
    requires '`' !in pre && '`' !in x
    ensures OccursAt(m, op, i) && OccursAt(m, cl, j)
    ensures forall k :: 0 <= k < i ==> m[k] != '`'
    ensures forall k :: i + |op| <= k < j ==> m[k] != '`'
  {
    forall k | 0 <= k < |op| ensures m[i + k] == op[k] {
      assert m[i..i + |op|][k] == m[i + k];
    }
    forall k | 0 <= k < |cl| ensures m[j + k] == cl[k] {
      assert m[j..j + |cl|][k] == m[j + k];
    }
    forall k | 0 <= k < i ensures m[k] != '`' {
      assert m[..i][k] == m[k];
    }
    forall k | i + |op| <= k < j ensures m[k] != '`' {
      assert m[i + |op|..j][k - i - |op|] == m[k];
    }
  }

  /**
   * With a pattern opening with a backquote at `i` and no backquote before it, and
   * a pattern whose second character is its first backquote at `j` with none
   * between the first pattern's end and `j`, both searches stop at the patterns.
   */
  lemma FindAroundFree(m: string, op: string, cl: string, i: nat, j: nat)
    requires op != [] && op[0] == '`' && |cl| >= 2 && cl[0] != '`' && cl[1] == '`'
    requires OccursAt(m, op, i) && OccursAt(m, cl, j) && i + |op| <= j
    requires forall k :: 0 <= k < i ==> m[k] != '`'
    requires forall k :: i + |op| <= k < j ==> m[k] != '`'
    ensures FindFrom(m, op, 0) == Some(i)
    ensures FindFrom(m, cl, i + |op|) == Some(j)
  {
    FindAtFirstBackquote(m, op, 0, i);
    FindAtSecondBackquote(m, cl, i + |op|, j);
  }

  // Solver helper: the literal characters of the fence markers, stated once.
  lemma FenceMarkers()
    ensures |Opener| == 8 && Opener[0] == '`'
    ensures |Closer| == 4 && Closer[0] == '\n' && Closer[1] == '`'
  {
  }

  /** Once the opener and the closer after it are found, the block is what lies between. */
  lemma ExtractAt(m: string, i: nat, j: nat)
    requires FindFrom(m, Opener, 0) == Some(i)
    requires FindFrom(m, Closer, i + |Opener|) == Some(j)
    ensures ExtractJsonBlock(m) == Some(m[i + |Opener|..j])
  {
  }

  /**
   * An opener preceded by no backquote, then backquote-free `x`, then a closer:
   * the block applied is `x`.
   */
  lemma ExtractBetween(m: string, i: nat, x: string)
    requires OccursAt(m, Opener, i) && OccursAt(m, Closer, i + |Opener| + |x|)
    requires m[i + |Opener|..i + |Opener| + |x|] == x
    requires forall k :: 0 <= k < i ==> m[k] != '`'
    requires forall k :: i + |Opener| <= k < i + |Opener| + |x| ==> m[k] != '`'
    ensures ExtractJsonBlock(m) == Some(x)
  {
    FenceMarkers();
    FindAroundFree(m, Opener, Closer, i, i + |Opener| + |x|);
    ExtractAt(m, i, i + |Opener| + |x|);
  }

  /** Applying takes the text between the first opener and the closer after it. */
  lemma ExtractOfFence(pre: string, x: string, post: string)
    requires '`' !in pre && '`' !in x
    ensures ExtractJsonBlock(pre + Opener + x + Closer + post) == Some(x)
  {
    FenceLayout(pre, Opener, x, Closer, post);
    ExtractBetween(pre + Opener + x + Closer + post, |pre|, x);
  }

  /** Text free of backquotes followed by ``` is the first piece of the split. */
  lemma SplitAfterFree(a: string, b: string)
    requires '`' !in a
    ensures Split(a + Fence + b, Fence) == [a] + Split(b, Fence)
  {
    var m := a + Fence + b;
    var i := |a|;
    assert |Fence| == 3;
    assert OccursAt(m, Fence, i) by {
      assert m[i..i + 3] == Fence;
    }
    forall k | 0 <= k < i ensures m[k] != '`' {
      assert m[k] == a[k];
    }
    FindAtFirstBackquote(m, Fence, 0, i);
    assert m[..i] == a && m[i + 3..] == b;
    SplitAtFind(m, Fence, i);
  }

  /** Splitting at ``` puts the text before the fence first and the fenced piece second. */
  lemma SplitOfFence(pre: string, x: string, post: string)
    requires '`' !in pre && '`' !in x
    ensures var parts := Split(pre + Opener + x + Closer + post, Fence);
            |parts| >= 2 && parts[0] == pre && parts[1] == "json\n" + x + "\n"
  {
    var piece := "json\n" + x + "\n";
    assert '`' !in piece by {
      forall k | 0 <= k < |piece| ensures piece[k] != '`' {
        if k < 5 { assert piece[k] == "json\n"[k]; }
        else if k < 5 + |x| { assert piece[k] == x[k - 5]; }
      }
    }
    assert pre + Opener + x + Closer + post == pre + Fence + (piece + Fence + post);
    SplitAfterFree(pre, piece + Fence + post);
    SplitAfterFree(piece, post);
  }

  /** Trimming the fenced piece keeps its "json" line and some visible code after it. */
  lemma TrimOfFencedPiece(x: string)
    requires !IsBlank(x)
    ensures var t := Trim("json\n" + x + "\n");
            && |"json"| < |t| && t[..|"json"|] == "json" && t[|"json"|] == '\n'
            && !IsBlank(t[|"json"| + 1..])
  {
    var t := Trim("json\n" + x + "\n");
    TrimKeepsHead("json\n", x, "\n");
    assert |"json"| == 4;
    assert t[..4] == t[..5][..4];
    assert t[4] == t[..5][4];
  }

  /**
   * A code piece whose trimmed text starts with a visible single-line label and a
   * newline, followed by visible code, renders as that code under that label.
   */
  lemma RenderOfLabelledPiece(part: string, index: nat, lang: string)
    requires index % 2 == 1
    requires var t := Trim(part); |lang| < |t| && t[..|lang|] == lang && t[|lang|] == '\n'
    requires lang != [] && '\n' !in lang && Trim(lang) == lang
    requires !IsBlank(Trim(part)[|lang| + 1..])
    ensures RenderPart(part, index) == Some(CodeSegment(lang, Trim(part)[|lang| + 1..]))
  {
    var t := Trim(part);
    var code := t[|lang| + 1..];
    AroundIndex(t, |lang|);
    SplitAtChar(lang, '\n', code);
    JoinSplit(code, "\n");
    var lines := Split(t, "\n");
    assert lines[0] == lang && lines[1..] == Split(code, "\n");
  }

  // Solver helper: the parity arithmetic for piece 1, stated once.
  lemma SecondPieceIsCode()
    ensures 1 % 2 == 1
  {
  }

  // Solver helper: the literal "json" is one line that trimming keeps.
  lemma JsonLabel()
    ensures |"json"| == 4 && '\n' !in "json" && Trim("json") == "json"
  {
    var s := "json";
    assert !IsWhitespace(s[0]) && !IsWhitespace(s[3]);
    SkipWhitespaceStopsAt(s, 0, 0);
    SkipWhitespaceBackStopsAt(s, 0, 4, 4);
    assert s[0..4] == s;
  }

  /** A code piece whose trimmed text is a "json" line and visible code carries the button. */
  lemma RenderOfJsonPiece(part: string)
    requires var t := Trim(part); |"json"| < |t| && t[..|"json"|] == "json" && t[|"json"|] == '\n'
    requires !IsBlank(Trim(part)[|"json"| + 1..])
    ensures var r := RenderPart(part, 1); r.Some? && HasApplyButton(r.value)
  {
    JsonLabel();
    SecondPieceIsCode();
    RenderOfLabelledPiece(part, 1, "json");
  }

  /** The fenced piece renders as a code block labelled json, so it carries the button. */
  lemma RenderOfFencedPiece(x: string)
    requires !IsBlank(x)
    ensures var r := RenderPart("json\n" + x + "\n", 1); r.Some? && HasApplyButton(r.value)
  {
    TrimOfFencedPiece(x);
    RenderOfJsonPiece("json\n" + x + "\n");
  }

  /**
   * A message with a json fence and no backquote before or inside it shows a
   * code block with the "Apply to Editor" button, and the button takes exactly
   * the fenced text.
   */
  lemma FencedJsonIsOffered(pre: string, x: string, post: string)
    requires '`' !in pre && '`' !in x
    requires !IsBlank(x)
    ensures var m := pre + Opener + x + Closer + post;
            && ExtractJsonBlock(m) == Some(x)
            && exists s :: s in Render(m) && HasApplyButton(s)
  {
    ExtractOfFence(pre, x, post);
    SplitOfFence(pre, x, post);
    RenderOfFencedPiece(x);
    ButtonOfSecondPiece(pre + Opener + x + Closer + post);
  }

  /** When the first fenced piece renders with the button, the message shows the button. */
  lemma ButtonOfSecondPiece(m: string)
    requires var parts := Split(m, Fence);
             |parts| >= 2 && RenderPart(parts[1], 1).Some? && HasApplyButton(RenderPart(parts[1], 1).value)
    ensures exists s :: s in Render(m) && HasApplyButton(s)
  {
    ButtonOfPieces(Split(m, Fence));
  }

  lemma ButtonOfPieces(parts: seq<string>)
    requires |parts| >= 2 && RenderPart(parts[1], 1).Some? && HasApplyButton(RenderPart(parts[1], 1).value)
    ensures exists s :: s in Collect(RenderParts(parts), 0) && HasApplyButton(s)
  {
    CollectKeeps(RenderParts(parts), 0, 1);
  }
}
