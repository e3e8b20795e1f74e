/**
 * The welcome modal (components/WelcomeModal/WelcomeModal.tsx): whether it
 * shows at all, given the last-seen entry of local storage and the clock;
 * the typing of its title; and where a chosen message goes. Storage and the
 * clock are parameters: the entry read is an `Option<string>` and every
 * write is reported in the handler's result, as the decimal text of the
 * `Date.now()` reading. Delays (1.5 s before showing, 20 ms per character,
 * 150 ms before the chat opens) are not modelled: each timer that fires is
 * one step.
 */
module WelcomeModal {
  import opened Wrappers
  import opened Text
  import opened Seqs
  import opened ChatContext
  import Composer

  /** One hour, in milliseconds. */
  const ExpireDurationMs: nat := 60 * 60 * 1000

  const TitleText: string := "Pourquoi lire quand vous pouvez me demander ?"

  /** The suggestion that declines the chat. */
  const DeclineSuggestion: string := "Je prefere voir le site"

  const Suggestions: seq<string> := ["Parle-moi de ton parcours", "Quelle est ta stack technique ?", DeclineSuggestion]

  // ---------------------------------------------------------------------------
  // Showing at all
  // ---------------------------------------------------------------------------

  /**
   * The mount effect's test: a missing or empty entry shows the modal; so
   * does an entry `parseInt` cannot read (`NaN` compares false); otherwise the
   * modal shows once an hour has passed since the stored time.
   */
  function ShouldShow(lastSeen: Option<string>, now: nat): (show: bool)
    ensures lastSeen.None? || lastSeen == Some("") ==> show
    ensures !show ==> lastSeen.Some? && ParseInt(lastSeen.value).Some?
  {
    if lastSeen.None? || lastSeen.value == "" then true
    else match ParseInt(lastSeen.value)
      case None => true
      case Some(t) => now - t >= ExpireDurationMs
  }

  /** With the time of the last close stored, the modal stays hidden for exactly one hour after it. */
  lemma HiddenForAnHour(seen: nat, now: nat)
    ensures ShouldShow(Some(NatToString(seen)), now) <==> now >= seen + ExpireDurationMs
  {
    ParseIntOfNatToString(seen);
  }

  // ---------------------------------------------------------------------------
  // The title
  // ---------------------------------------------------------------------------

  /** How far the title is typed, and whether typing is over. */
  datatype Title = Title(index: nat, complete: bool)

  /** The typing effect: idle while hidden or once complete; otherwise one more character, or completion at the end. */
  function TitleStep(title: string, t: Title, visible: bool): (r: Title)
    ensures r.index >= t.index && r.index <= t.index + 1
    ensures r.complete ==> t.complete || (visible && t.index >= |title|)
  {
    if !visible || t.complete then t
    else if t.index < |title| then Title(t.index + 1, false)
    else Title(t.index, true)
  }

  /** The title on screen: all of it once complete, otherwise `title.slice(0, index)`; always a prefix of the title. */
  function ShownTitle(title: string, t: Title): (s: string)
    ensures s <= title
    ensures t.complete ==> s == title
    ensures !t.complete ==> |s| == Min(t.index, |title|)
  {
    if t.complete then title else Take(title, t.index)
  }

  /** The title state after `ticks` runs of the typing effect on a visible modal, from the start. */
  function TitleAfter(title: string, ticks: nat): Title
    decreases ticks
  {
    if ticks == 0 then Title(0, false) else TitleStep(title, TitleAfter(title, ticks - 1), true)
  }

  /** One character appears per tick until the whole title is typed, and the next tick marks it complete. */
  lemma {:induction false} TitleTyping(title: string, ticks: nat)
    ensures TitleAfter(title, ticks) == if ticks <= |title| then Title(ticks, false) else Title(|title|, true)
    decreases ticks
  {
    if ticks > 0 {
      TitleTyping(title, ticks - 1);
    }
  }

  /** The shown title only grows, one character at a time, and ends as the whole title. */
  lemma ShownTitleGrows(title: string, ticks: nat)
    ensures ShownTitle(title, TitleAfter(title, ticks)) <= ShownTitle(title, TitleAfter(title, ticks + 1))
    ensures |ShownTitle(title, TitleAfter(title, ticks))| == Min(ticks, |title|)
    ensures ticks > |title| ==> ShownTitle(title, TitleAfter(title, ticks)) == title
  {
    TitleTyping(title, ticks);
    TitleTyping(title, ticks + 1);
    var a := ShownTitle(title, TitleAfter(title, ticks));
    var b := ShownTitle(title, TitleAfter(title, ticks + 1));
    assert a <= title && b <= title && |a| <= |b|;
    assert a == title[..|a|] && b == title[..|b|];
  }

  // ---------------------------------------------------------------------------
  // Routing a message
  // ---------------------------------------------------------------------------

  datatype Modal = Modal(
    visible: bool,
    transitioning: bool,
    input: string,
    title: Title,
    showMessage: bool,
    showSuggestions: bool)

  /** The state the modal mounts with. */
  const Unmounted: Modal := Modal(false, false, "", Title(0, false), false, false)

  /** The mount effect once its delay fired: shown with the typing restarted, unless seen within the hour. */
  function Mount(m: Modal, lastSeen: Option<string>, now: nat): (r: Modal)
    ensures r.visible <==> m.visible || ShouldShow(lastSeen, now)
    ensures ShouldShow(lastSeen, now) ==> r.title == Title(0, false) && !r.showMessage && !r.showSuggestions
    ensures !ShouldShow(lastSeen, now) ==> r == m
  {
    if ShouldShow(lastSeen, now) then
      m.(title := Title(0, false), showMessage := false, showSuggestions := false, visible := true)
    else m
  }

  /** The modal, the last-seen entry written (if any), and the shared chat context after a handler. */
  datatype Routed = Routed(modal: Modal, stored: Option<string>, chat: Context)

  /** `handleClose`: hides the modal and stores the current time. */
  function HandleClose(m: Modal, c: Context, now: nat): (r: Routed)
    ensures !r.modal.visible && r.stored == Some(NatToString(now)) && r.chat == c
  {
    Routed(m.(visible := false), Some(NatToString(now)), c)
  }

  /**
   * `handleSendMessage`: the declining suggestion only closes; any other
   * message stores the current time, hides the modal and opens the mini chat
   * with exactly that message queued.
   */
  function HandleSendMessage(m: Modal, c: Context, message: string, now: nat): (r: Routed)
    ensures !r.modal.visible && r.stored == Some(NatToString(now))
    ensures message == DeclineSuggestion ==> r.chat == c
    ensures message != DeclineSuggestion ==> r.chat == OpenChatWithQuestion(c, message)
  {
    if message == DeclineSuggestion then HandleClose(m, c, now)
    else Routed(m.(transitioning := true, visible := false), Some(NatToString(now)), OpenChatWithQuestion(c, message))
  }

  /** `handleSubmit`: blank input does nothing; otherwise the trimmed input is routed. */
  function HandleSubmit(m: Modal, c: Context, now: nat): (r: Routed)
    ensures r.stored.Some? <==> !Composer.Blank(m.input)
    ensures r.stored.None? ==> r == Routed(m, None, c)
  {
    TrimEmptyIff(m.input);
    if Trim(m.input) != "" then HandleSendMessage(m, c, Trim(m.input), now) else Routed(m, None, c)
  }

  /** `handleKeyDown`: Enter without Shift submits; any other key changes nothing. */
  function HandleKeyDown(m: Modal, c: Context, key: string, shift: bool, now: nat): (r: Routed)
    ensures r.stored.Some? <==> key == "Enter" && !shift && !Composer.Blank(m.input)
    ensures r.stored.None? ==> r == Routed(m, None, c)
  {
    if key == "Enter" && !shift then HandleSubmit(m, c, now) else Routed(m, None, c)
  }

  /** Whatever the message, once it is routed the modal does not show again for an hour. */
  lemma RoutedStaysHidden(m: Modal, c: Context, message: string, now: nat, later: nat)
    requires now <= later < now + ExpireDurationMs
    ensures !ShouldShow(HandleSendMessage(m, c, message, now).stored, later)
  {
    HiddenForAnHour(now, later);
  }

  /**
   * A message other than the declining suggestion reaches the conversation:
   * the mini chat that mounts next sends exactly that message, once.
   */
  lemma RoutedMessageIsSent(m: Modal, c: Context, message: string, now: nat, t: nat)
    requires message != DeclineSuggestion && message != ""
    ensures var chat := HandleSendMessage(m, c, message, now).chat;
      && chat.chatState == Minimized
      && Composer.PendingEffect(chat, false, t).sent == Some(message)
  {
  }

  /** The two first suggestions open the chat with themselves; the third only closes the modal. */
  lemma SuggestionRouting(m: Modal, c: Context, now: nat)
    ensures HandleSendMessage(m, c, Suggestions[0], now).chat == OpenChatWithQuestion(c, Suggestions[0])
    ensures HandleSendMessage(m, c, Suggestions[1], now).chat == OpenChatWithQuestion(c, Suggestions[1])
    ensures HandleSendMessage(m, c, Suggestions[2], now).chat == c
  {
    assert Suggestions[0][0] != DeclineSuggestion[0];
    assert Suggestions[1][0] != DeclineSuggestion[0];
  }
}
