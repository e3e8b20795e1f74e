/**
 * The input handling of the two chat surfaces, the full chat
 * (components/Hero/ChatModal.tsx) and the mini chat
 * (components/ChatWidget/MiniChat.tsx): the send guard they share, the Enter
 * key, the mini chat's disabled input, and the two effects that send a queued
 * question on their own. A surface's local state (its input text and its
 * one-shot flag) is passed next to the shared `Context`. Focus, scrolling and
 * the 300 ms delay before the full chat sends its initial question are not
 * modelled: the question is handed to `sendMessage` when the effect runs.
 */
module Composer {
  import opened Wrappers
  import opened Text
  import opened ChatContext

  /** Text with nothing but whitespace in it, the empty text included. */
  predicate Blank(s: string) {
    forall k :: 0 <= k < |s| ==> IsJsWhitespace(s[k])
  }

  /** The input box after a handler ran, and the text handed to `sendMessage`, if any. */
  datatype Composed = Composed(input: string, sent: Option<string>)

  /**
   * `handleSend`: blank input, or a request still pending, sends nothing and
   * keeps the box; otherwise the trimmed text is sent and the box cleared.
   */
  function HandleSend(input: string, isLoading: bool): (r: Composed)
    ensures r.sent.Some? <==> !isLoading && !Blank(input)
    ensures r.sent.None? ==> r.input == input
    ensures r.sent.Some? ==> r.input == "" && r.sent.value != "" && r.sent.value == Trim(input)
  {
    TrimEmptyIff(input);
    if Trim(input) == "" || isLoading then Composed(input, None)
    else Composed("", Some(Trim(input)))
  }

  /** What was sent is already trimmed: typing it again and sending sends the very same text. */
  lemma SentTextIsStable(input: string, isLoading: bool)
    requires HandleSend(input, isLoading).sent.Some?
    ensures var t := HandleSend(input, isLoading).sent.value;
      HandleSend(t, false).sent == Some(t)
  {
    var t := Trim(input);
    TrimIdempotent(input);
    TrimEmptyIff(t);
  }

  /** `handleKeyDown`: Enter without Shift is a click on the send button; every other key leaves the box alone. */
  function HandleKeyDown(key: string, shift: bool, input: string, isLoading: bool): (r: Composed)
    ensures r.sent.Some? <==> key == "Enter" && !shift && !isLoading && !Blank(input)
    ensures r.sent.None? ==> r.input == input
  {
    if key == "Enter" && !shift then HandleSend(input, isLoading) else Composed(input, None)
  }

  // ---------------------------------------------------------------------------
  // The mini chat's disabled input
  // ---------------------------------------------------------------------------

  /** `messages.some(m => m.isTyping)`. */
  predicate AnyTyping(messages: seq<Message>) {
    exists i :: 0 <= i < |messages| && messages[i].isTyping
  }

  /** The mini chat's text box is disabled while a request is pending or a reply is still being revealed (MiniChat line 246). */
  predicate InputDisabled(c: Context) {
    c.isLoading || AnyTyping(c.messages)
  }

  /** Its send button is disabled in the same cases and while the box is blank (MiniChat line 250). */
  predicate SendDisabled(c: Context, input: string) {
    Trim(input) == "" || InputDisabled(c)
  }

  /** A click on an enabled send button sends the trimmed input. */
  lemma EnabledButtonSends(c: Context, input: string)
    requires !SendDisabled(c, input)
    ensures HandleSend(input, c.isLoading).sent == Some(Trim(input))
  {
    TrimEmptyIff(input);
  }

  /** From the moment a message is sent until its reply has been revealed, the mini chat's input is disabled. */
  lemma SendingLocksInput(c: Context, text: string, reply: Reply, t0: nat, t1: nat)
    ensures InputDisabled(SendBegin(c, text, t0))
    ensures InputDisabled(SendFinish(SendBegin(c, text, t0), reply, t1))
  {
    var f := SendFinish(SendBegin(c, text, t0), reply, t1);
    assert f.messages[|f.messages| - 1] == AnswerMessage(reply, t1);
  }

  /** Marking the reply complete unlocks the input again when nothing else was typing. */
  lemma CompletingReplyUnlocks(c: Context, reply: Reply, now: nat)
    requires !AnyTyping(c.messages)
    ensures !InputDisabled(MarkMessageComplete(SendFinish(c, reply, now), AnswerMessage(reply, now).id))
  {
    var f := SendFinish(c, reply, now);
    var id := AnswerMessage(reply, now).id;
    var m := MarkMessageComplete(f, id);
    forall i | 0 <= i < |m.messages|
      ensures !m.messages[i].isTyping
    {
      if i < |c.messages| {
        assert f.messages[i] == c.messages[i];
      }
    }
  }

  // ---------------------------------------------------------------------------
  // Questions sent without a click
  // ---------------------------------------------------------------------------

  /** The context after an effect ran, the surface's one-shot flag, and the question the effect handed to `sendMessage`. */
  datatype Fired = Fired(context: Context, flag: bool, sent: Option<string>)

  /**
   * The mini chat's pending-question effect (MiniChat lines 110-116): a
   * non-empty queued question is taken once; the flag is set and the queue
   * cleared before the question is sent.
   */
  function PendingEffect(c: Context, hasSentPending: bool, now: nat): (r: Fired)
    ensures r.sent.Some? <==> c.pendingQuestion != "" && !hasSentPending
    ensures r.sent.Some? ==>
      && r.sent.value == c.pendingQuestion && r.flag
      && r.context.pendingQuestion == ""
      && r.context.messages == c.messages + [Message(NatToString(now), c.pendingQuestion, User, false)]
    ensures r.sent.None? ==> r == Fired(c, hasSentPending, None)
  {
    if c.pendingQuestion != "" && !hasSentPending then
      Fired(SendBegin(ClearPendingQuestion(c), c.pendingQuestion, now), true, Some(c.pendingQuestion))
    else
      Fired(c, hasSentPending, None)
  }

  /** What can happen around the mini chat: an action on the shared context, or a run of its pending-question effect. */
  datatype MiniEvent = ContextAction(action: Action) | PendingEffectRun(now: nat)

  /** The mini chat is on the page exactly while the chat is minimized (ChatWidget lines 14 and 34-36). */
  predicate MiniMounted(c: Context) {
    c.chatState == Minimized
  }

  /**
   * The one-shot flag after an action took the context from `before` to
   * `after`: kept while the mini chat stays mounted, and clear otherwise,
   * since the flag lives in the mini chat and a new mount starts it at
   * `false`.
   */
  function FlagAfter(before: Context, after: Context, hasSentPending: bool): (flag: bool)
    ensures flag ==> hasSentPending
    ensures MiniMounted(after) && !MiniMounted(before) ==> !flag
    ensures MiniMounted(before) && MiniMounted(after) ==> flag == hasSentPending
  {
    MiniMounted(before) && MiniMounted(after) && hasSentPending
  }

  /**
   * The number of questions the pending-question effect sends over `events`,
   * from flag `hasSentPending`. The effect runs only while the mini chat is
   * mounted.
   */
  function PendingSends(c: Context, hasSentPending: bool, events: seq<MiniEvent>): nat
    decreases |events|
  {
    if |events| == 0 then 0
    else match events[0]
      case ContextAction(a) =>
        var next := Apply(c, a);
        PendingSends(next, FlagAfter(c, next, hasSentPending), events[1..])
      case PendingEffectRun(now) =>
        if !MiniMounted(c) then PendingSends(c, hasSentPending, events[1..])
        else
          var r := PendingEffect(c, hasSentPending, now);
          (if r.sent.Some? then 1 else 0) + PendingSends(r.context, r.flag, events[1..])
  }

  /** The number of times `events` puts the mini chat on the page afresh. */
  function Mounts(c: Context, events: seq<MiniEvent>): nat
    decreases |events|
  {
    if |events| == 0 then 0
    else match events[0]
      case ContextAction(a) =>
        var next := Apply(c, a);
        (if !MiniMounted(c) && MiniMounted(next) then 1 else 0) + Mounts(next, events[1..])
      case PendingEffectRun(_) => Mounts(c, events[1..])
  }

  /** What a mounted mini chat may still send: one question while its flag is clear, none once it is set or while it is not mounted. */
  function Allowance(c: Context, hasSentPending: bool): nat {
    if MiniMounted(c) && !hasSentPending then 1 else 0
  }

  /**
   * Each mount of the mini chat sends at most one queued question, whatever
   * is queued later: over any events the effect sends at most what the
   * current mount still may, plus one per new mount.
   */
  lemma {:induction false} PendingSentOncePerMount(c: Context, hasSentPending: bool, events: seq<MiniEvent>)
    ensures PendingSends(c, hasSentPending, events) <= Allowance(c, hasSentPending) + Mounts(c, events)
    decreases |events|
  {
    if |events| > 0 {
      match events[0]
      case ContextAction(a) =>
        var next := Apply(c, a);
        PendingSentOncePerMount(next, FlagAfter(c, next, hasSentPending), events[1..]);
      case PendingEffectRun(now) =>
        if MiniMounted(c) {
          var r := PendingEffect(c, hasSentPending, now);
          MountsFollowState(r.context, c, events[1..]);
          PendingSentOncePerMount(r.context, r.flag, events[1..]);
        } else {
          PendingSentOncePerMount(c, hasSentPending, events[1..]);
        }
    }
  }

  /** Which chat state an action leads to depends on the chat state alone. */
  lemma ApplyFollowsState(c: Context, d: Context, a: Action)
    requires c.chatState == d.chatState
    ensures Apply(c, a).chatState == Apply(d, a).chatState
  {
  }

  /** So does the number of mounts along any events. */
  lemma {:induction false} MountsFollowState(c: Context, d: Context, events: seq<MiniEvent>)
    requires c.chatState == d.chatState
    ensures Mounts(c, events) == Mounts(d, events)
    decreases |events|
  {
    if |events| > 0 {
      match events[0]
      case ContextAction(a) =>
        ApplyFollowsState(c, d, a);
        MountsFollowState(Apply(c, a), Apply(d, a), events[1..]);
      case PendingEffectRun(_) =>
        MountsFollowState(c, d, events[1..]);
    }
  }

  /**
   * While the mini chat is not put on the page afresh its effect sends at
   * most one queued question, and none once its flag is set.
   */
  lemma PendingSentAtMostOnce(c: Context, hasSentPending: bool, events: seq<MiniEvent>)
    ensures Mounts(c, events) == 0 ==> PendingSends(c, hasSentPending, events) <= if hasSentPending then 0 else 1
  {
    PendingSentOncePerMount(c, hasSentPending, events);
  }

  /**
   * Minimizing the mini chat to the icon and queueing a question mounts it
   * afresh, so the new mount sends the question even though the old mount
   * had already sent one.
   */
  lemma RemountSendsAgain(c: Context, question: string, now: nat)
    requires MiniMounted(c) && question != ""
    ensures PendingSends(c, true, [ContextAction(DoMinimizeToIcon), ContextAction(DoOpenChatWithQuestion(question)), PendingEffectRun(now)]) == 1
  {
    var events := [ContextAction(DoMinimizeToIcon), ContextAction(DoOpenChatWithQuestion(question)), PendingEffectRun(now)];
    var closed := Apply(c, DoMinimizeToIcon);
    var queued := Apply(closed, DoOpenChatWithQuestion(question));
    assert events[1..] == [ContextAction(DoOpenChatWithQuestion(question)), PendingEffectRun(now)];
    assert events[1..][1..] == [PendingEffectRun(now)];
    assert events[1..][1..][1..] == [];
    assert !MiniMounted(closed) && MiniMounted(queued) && queued.pendingQuestion == question;
    var r := PendingEffect(queued, false, now);
    assert r.sent.Some?;
    calc {
      PendingSends(c, true, events);
      PendingSends(closed, false, events[1..]);
      PendingSends(queued, false, events[1..][1..]);
      1 + PendingSends(r.context, r.flag, []);
    }
  }

  /** A question queued after the mini chat already sent one stays queued: its effect does not send it. */
  lemma LaterQuestionStaysQueued(c: Context, question: string, now: nat)
    ensures PendingEffect(OpenChatWithQuestion(c, question), true, now).sent == None
    ensures PendingEffect(OpenChatWithQuestion(c, question), true, now).context.pendingQuestion == question
  {
  }

  /**
   * The full chat's effects (ChatModal lines 132-146): while the full chat is
   * open, a non-empty initial question is taken once, the flag set and the
   * question cleared before it is sent; whenever the full chat is not open
   * the flag is reset.
   */
  function InitialEffects(c: Context, hasInitialized: bool, now: nat): (r: Fired)
    ensures r.sent.Some? <==> IsOpen(c) && c.initialQuestion != "" && !hasInitialized
    ensures r.sent.Some? ==> r.sent.value == c.initialQuestion && r.flag && r.context.initialQuestion == ""
    ensures !IsOpen(c) ==> !r.flag && r.context == c
    ensures r.sent.None? ==> r.context == c
  {
    if IsOpen(c) && c.initialQuestion != "" && !hasInitialized then
      Fired(SendBegin(ClearInitialQuestion(c), c.initialQuestion, now), true, Some(c.initialQuestion))
    else if !IsOpen(c) then
      Fired(c, false, None)
    else
      Fired(c, hasInitialized, None)
  }

  /** Once the full chat has sent its initial question it sends no other before it is closed again. */
  lemma InitialSentOncePerOpen(c: Context, flag: bool, now: nat, later: Context, now2: nat)
    requires InitialEffects(c, flag, now).sent.Some?
    requires IsOpen(later)
    ensures InitialEffects(later, InitialEffects(c, flag, now).flag, now2).sent == None
  {
  }

  /**
   * No action of the context ever queues an initial question, so in every
   * state reachable from the initial one the full chat's effect sends
   * nothing: questions reach the chat through the pending queue only.
   */
  lemma InitialEffectNeverSends(actions: seq<Action>, flag: bool, now: nat)
    ensures InitialEffects(Run(Initial, actions), flag, now).sent == None
  {
    InitialQuestionNeverSet(actions);
  }
}
