/**
 * The chat state shared by the whole page (`context/ChatContext.tsx`): the
 * three-valued `chatState`, the two queued questions, the message list, the
 * session id and the loading flag, with every action the provider exposes.
 *
 * React state setters become pure functions from one `Context` to the next.
 * `sendMessage` awaits the network between its two halves, so it is split
 * into `SendBegin` (the user message is appended and loading starts) and
 * `SendFinish` (the reply or the error text is appended and loading stops);
 * other actions may run in between. Clocks are parameters: a message id is
 * the decimal text of the `Date.now()` reading it was built from.
 */
module ChatContext {
  import opened Wrappers
  import opened Text

  datatype ChatState = Closed | Minimized | Expanded

  datatype Role = User | Assistant

  /** A chat message; an absent `isTyping` is `false`. The timestamp is not modelled. */
  datatype Message = Message(id: string, content: string, role: Role, isTyping: bool)

  datatype Context = Context(
    chatState: ChatState,
    initialQuestion: string,
    pendingQuestion: string,
    messages: seq<Message>,
    sessionId: Option<string>,
    isLoading: bool)

  /** The state the provider mounts with (lines 38-43). */
  const Initial: Context := Context(Closed, "", "", [], None, false)

  const ErrorReply: string :=
    "Une erreur s'est produite. Contactez-moi directement a yass_official@outlook.fr"

  /** `isOpen`, kept for older callers. */
  predicate IsOpen(c: Context) {
    c.chatState == Expanded
  }

  /** `a` and `b` agree on everything but the chat state. */
  predicate SameButState(a: Context, b: Context) {
    a.(chatState := b.chatState) == b
  }

  /** `a` and `b` agree on everything but the message list. */
  predicate SameButMessages(a: Context, b: Context) {
    a.(messages := b.messages) == b
  }

  // ---------------------------------------------------------------------------
  // Panel transitions
  // ---------------------------------------------------------------------------

  /** `openChat`: opens the mini chat. */
  function OpenChat(c: Context): (r: Context)
    ensures r.chatState == Minimized && SameButState(c, r)
  {
    c.(chatState := Minimized)
  }

  /** `openChatWithQuestion(q)`: queues `q` for the mini chat and opens it. */
  function OpenChatWithQuestion(c: Context, question: string): (r: Context)
    ensures r.chatState == Minimized && r.pendingQuestion == question
    ensures r.(chatState := c.chatState, pendingQuestion := c.pendingQuestion) == c
  {
    c.(pendingQuestion := question, chatState := Minimized)
  }

  /** `closeChat`: closes the chat and forgets the conversation and both queued questions. */
  function CloseChat(c: Context): (r: Context)
    ensures r.chatState == Closed && r.messages == [] && r.sessionId == None
    ensures r.initialQuestion == "" && r.pendingQuestion == ""
    ensures r.isLoading == c.isLoading
  {
    c.(chatState := Closed, initialQuestion := "", pendingQuestion := "", messages := [], sessionId := None)
  }

  /** `toggleChat`: the full chat closes; anything else expands. */
  function ToggleChat(c: Context): (r: Context)
    ensures SameButState(c, r)
    ensures r.chatState == Closed <==> c.chatState == Expanded
    ensures r.chatState != Minimized
  {
    c.(chatState := if c.chatState == Expanded then Closed else Expanded)
  }

  function ClearInitialQuestion(c: Context): (r: Context)
    ensures r.initialQuestion == "" && r.(initialQuestion := c.initialQuestion) == c
  {
    c.(initialQuestion := "")
  }

  function ClearPendingQuestion(c: Context): (r: Context)
    ensures r.pendingQuestion == "" && r.(pendingQuestion := c.pendingQuestion) == c
  {
    c.(pendingQuestion := "")
  }

  /** `minimizeToBar`: shows the mini chat. */
  function MinimizeToBar(c: Context): (r: Context)
    ensures r.chatState == Minimized && SameButState(c, r)
  {
    c.(chatState := Minimized)
  }

  /** `minimizeToIcon`: back to the floating button, keeping the conversation. */
  function MinimizeToIcon(c: Context): (r: Context)
    ensures r.chatState == Closed && SameButState(c, r)
  {
    c.(chatState := Closed)
  }

  /** `expandChat`: shows the full chat. */
  function ExpandChat(c: Context): (r: Context)
    ensures r.chatState == Expanded && SameButState(c, r)
  {
    c.(chatState := Expanded)
  }

  /** Toggling flips whether the full chat is open. */
  lemma ToggleFlipsOpen(c: Context)
    ensures IsOpen(ToggleChat(c)) <==> !IsOpen(c)
  {
  }

  /** Closing and minimising to the icon reach the same panel state; only closing forgets the conversation. */
  lemma CloseVersusMinimizeToIcon(c: Context)
    ensures CloseChat(c).chatState == MinimizeToIcon(c).chatState == Closed
    ensures MinimizeToIcon(c).messages == c.messages && MinimizeToIcon(c).sessionId == c.sessionId
    ensures CloseChat(c) == MinimizeToIcon(c).(initialQuestion := "", pendingQuestion := "", messages := [], sessionId := None)
  {
  }

  // ---------------------------------------------------------------------------
  // Message list
  // ---------------------------------------------------------------------------

  /** The typing flag turned off. */
  function Completed(m: Message): (r: Message)
    ensures !r.isTyping && r.(isTyping := m.isTyping) == m
  {
    m.(isTyping := false)
  }

  /** `markMessageComplete(id)`: ends the typing animation of the messages carrying `id`. */
  function MarkMessageComplete(c: Context, id: string): (r: Context)
    ensures SameButMessages(c, r)
    ensures |r.messages| == |c.messages|
    ensures forall i :: 0 <= i < |c.messages| ==>
      r.messages[i] == if c.messages[i].id == id then Completed(c.messages[i]) else c.messages[i]
  {
    var ms := c.messages;
    c.(messages := seq(|ms|, i requires 0 <= i < |ms| => if ms[i].id == id then Completed(ms[i]) else ms[i]))
  }

  /** After marking, no message with that id is still typing; marking twice changes nothing more. */
  lemma MarkMessageCompleteSettles(c: Context, id: string)
    ensures forall m :: m in MarkMessageComplete(c, id).messages && m.id == id ==> !m.isTyping
    ensures MarkMessageComplete(MarkMessageComplete(c, id), id) == MarkMessageComplete(c, id)
  {
  }

  /** Marking two messages complete gives the same list in either order. */
  lemma MarkMessageCompleteCommutes(c: Context, a: string, b: string)
    ensures MarkMessageComplete(MarkMessageComplete(c, a), b) == MarkMessageComplete(MarkMessageComplete(c, b), a)
  {
  }

  /** `clearChat`: forgets the conversation but leaves the panel as it is. */
  function ClearChat(c: Context): (r: Context)
    ensures r.messages == [] && r.sessionId == None
    ensures r.chatState == c.chatState && r.isLoading == c.isLoading
    ensures r.initialQuestion == c.initialQuestion && r.pendingQuestion == c.pendingQuestion
  {
    c.(messages := [], sessionId := None)
  }

  // ---------------------------------------------------------------------------
  // sendMessage
  // ---------------------------------------------------------------------------

  /** What the request to `/api/chat` came to: a reply body, or any failure (a non-OK status or a thrown fetch). */
  datatype Reply = Replied(message: string, sessionId: Option<string>) | RequestFailed

  /** `if (data.sessionId)`: only a present, non-empty id is adopted. */
  function AdoptSession(current: Option<string>, received: Option<string>): (r: Option<string>)
    ensures r == current || r == received
    ensures r != current ==> received.Some? && received.value != ""
  {
    if received.Some? && received.value != "" then received else current
  }

  /** The first half of `sendMessage(text)` at clock reading `now`: the user message is appended and loading starts. */
  function SendBegin(c: Context, text: string, now: nat): (r: Context)
    ensures r.messages == c.messages + [Message(NatToString(now), text, User, false)]
    ensures r.isLoading
    ensures r.(messages := c.messages, isLoading := c.isLoading) == c
  {
    c.(messages := c.messages + [Message(NatToString(now), text, User, false)], isLoading := true)
  }

  /** The assistant message that answers a request: the reply text, or the fixed error text; it starts typing. */
  function AnswerMessage(reply: Reply, now: nat): (m: Message)
    ensures m.role == Assistant && m.isTyping && m.id == NatToString(now + 1)
    ensures m.content == if reply.Replied? then reply.message else ErrorReply
  {
    match reply
    case Replied(text, _) => Message(NatToString(now + 1), text, Assistant, true)
    case RequestFailed => Message(NatToString(now + 1), ErrorReply, Assistant, true)
  }

  /** The second half of `sendMessage`, once the request settles at clock reading `now`. */
  function SendFinish(c: Context, reply: Reply, now: nat): (r: Context)
    ensures r.messages == c.messages + [AnswerMessage(reply, now)]
    ensures !r.isLoading
    ensures r.sessionId == if reply.Replied? then AdoptSession(c.sessionId, reply.sessionId) else c.sessionId
    ensures r.chatState == c.chatState && r.initialQuestion == c.initialQuestion
    ensures r.pendingQuestion == c.pendingQuestion
  {
    var session := if reply.Replied? then AdoptSession(c.sessionId, reply.sessionId) else c.sessionId;
    c.(sessionId := session, messages := c.messages + [AnswerMessage(reply, now)], isLoading := false)
  }

  /**
   * A send that is not interleaved with other actions appends exactly the
   * user message and one typing assistant message, and leaves loading off.
   */
  lemma SendRoundTrip(c: Context, text: string, reply: Reply, t0: nat, t1: nat)
    ensures var r := SendFinish(SendBegin(c, text, t0), reply, t1);
      && r.messages == c.messages + [Message(NatToString(t0), text, User, false), AnswerMessage(reply, t1)]
      && !r.isLoading
      && r.chatState == c.chatState
      && (r.sessionId != c.sessionId ==> reply.Replied? && reply.sessionId == r.sessionId)
  {
    var b := SendBegin(c, text, t0);
    assert b.messages + [AnswerMessage(reply, t1)]
      == c.messages + [Message(NatToString(t0), text, User, false), AnswerMessage(reply, t1)];
  }

  // ---------------------------------------------------------------------------
  // Every action, and what holds in every reachable state
  // ---------------------------------------------------------------------------

  datatype Action =
    | DoOpenChat
    | DoOpenChatWithQuestion(question: string)
    | DoCloseChat
    | DoToggleChat
    | DoClearInitialQuestion
    | DoClearPendingQuestion
    | DoMinimizeToBar
    | DoMinimizeToIcon
    | DoExpandChat
    | DoMarkMessageComplete(id: string)
    | DoClearChat
    | DoSendBegin(text: string, now: nat)
    | DoSendFinish(reply: Reply, now: nat)

  function Apply(c: Context, a: Action): Context {
    match a
    case DoOpenChat => OpenChat(c)
    case DoOpenChatWithQuestion(q) => OpenChatWithQuestion(c, q)
    case DoCloseChat => CloseChat(c)
    case DoToggleChat => ToggleChat(c)
    case DoClearInitialQuestion => ClearInitialQuestion(c)
    case DoClearPendingQuestion => ClearPendingQuestion(c)
    case DoMinimizeToBar => MinimizeToBar(c)
    case DoMinimizeToIcon => MinimizeToIcon(c)
    case DoExpandChat => ExpandChat(c)
    case DoMarkMessageComplete(id) => MarkMessageComplete(c, id)
    case DoClearChat => ClearChat(c)
    case DoSendBegin(text, now) => SendBegin(c, text, now)
    case DoSendFinish(reply, now) => SendFinish(c, reply, now)
  }

  /** The state after the actions, applied left to right. */
  function Run(c: Context, actions: seq<Action>): Context
    decreases |actions|
  {
    if |actions| == 0 then c else Run(Apply(c, actions[0]), actions[1..])
  }

  /** Only assistant messages ever type, and user messages never do. */
  predicate TypingOnlyAssistant(c: Context) {
    forall i :: 0 <= i < |c.messages| ==> c.messages[i].isTyping ==> c.messages[i].role == Assistant
  }

  /** What every reachable state satisfies. */
  predicate Reachable(c: Context) {
    c.initialQuestion == "" && TypingOnlyAssistant(c)
  }

  lemma ApplyKeepsReachable(c: Context, a: Action)
    requires Reachable(c)
    ensures Reachable(Apply(c, a))
  {
  }

  /**
   * From the initial state, whatever the actions, `initialQuestion` stays
   * empty (no action ever sets it to anything else) and only assistant
   * messages are typing.
   */
  lemma {:induction false} RunKeepsReachable(c: Context, actions: seq<Action>)
    requires Reachable(c)
    ensures Reachable(Run(c, actions))
    decreases |actions|
  {
    if |actions| > 0 {
      ApplyKeepsReachable(c, actions[0]);
      RunKeepsReachable(Apply(c, actions[0]), actions[1..]);
    }
  }

  lemma InitialQuestionNeverSet(actions: seq<Action>)
    ensures Run(Initial, actions).initialQuestion == ""
  {
    RunKeepsReachable(Initial, actions);
  }
}
