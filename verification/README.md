# Portfolio chat and sections — a Dafny model

This project models the logic of a personal portfolio site written in
TypeScript/React: the multi-provider chat back end that answers visitors'
questions, the client-side chat state machine and its two chat surfaces,
the markdown renderer of chat bubbles, the welcome modal that invites
visitors into the chat, and the small pure computations of the projects,
experience, skills and certifications sections. It proves properties of
that model with Dafny.

Modules, one per source unit:

- `ChatService` (lib/chat-service.ts): the dispatch `generateChatResponse`. It builds the message list and the de-duplicated provider order, keeps the configured providers, walks them (skip, answer or fail), classifies errors and estimates tokens. The provider registry, the minute limit, the daily quota, the invocation and the recording of minute usage are oracle parameters (`Oracles`), and each of the quota calls may throw. The calls the dispatch makes on them are reported as a list of `Event`s.
- `PortfolioContext` (lib/chat-service.ts): the structural selection rules of the system prompt's text. It covers which experiences are included, their headings, the number of responsibilities and technologies, education years and experience links.
- `ChatContext` (context/ChatContext.tsx): the shared chat state and every one of its actions. `sendMessage` is split into its part before the request (`SendBegin`) and its part after the reply (`SendFinish`), with the reply as a parameter.
- `ChatWidget` (components/ChatWidget/ChatWidget.tsx, lib/registry.tsx): which chat surface is on the page in each chat state.
- `Markdown` (`parseMarkdown` in components/Hero/ChatModal.tsx and components/ChatWidget/MiniChat.tsx): the regular-expression scan as a leftmost, priority-ordered matcher, and the rendering of its pieces.
- `TypedMessage` (both chat surfaces): the word-by-word reveal.
- `Composer` (both chat surfaces): the send guard, the Enter key, the mini chat's disabled input, and the one-shot effects that send a queued question.
- `WelcomeModal` (components/WelcomeModal/WelcomeModal.tsx): the one-hour expiry, the typing of the title, and the routing of a chosen message.
- `ProjectsBento`, `ExperienceTimeline`, `SkillsModern`, `Certifications`: the pure helpers of those components.
- `Wrappers`, `Seqs`, `Text`: `Option`/`Result`, sequence helpers (take, filter, "+N" overflow, rows of dots), and the JavaScript string operations the source relies on. The string operations are `toLowerCase` (as far as it yields ASCII, see below), `trim`, `split`/`join`, `includes`, `length` and `substring` in UTF-16 code units, decimal printing and `parseInt`.

Timers are not modelled as time: each firing of a timer or run of an effect
is one step. The clock and the stored "last seen" entry of local storage
are parameters.

## Model

| member | source | states |
|---|---|---|
| ChatService.BuildMessages | lib/chat-service.ts:214-220 | The list has the history's length plus two. It opens with the system prompt and ends with the user's message as a human message. Each history turn keeps its content and position, and becomes a human message exactly when its role is `user`, an AI message otherwise. |
| ChatService.BuildMessagesContents | lib/chat-service.ts:214-220 | The contents handed to the provider are the prompt, the history's contents in order, then the message. |
| ChatService.CeilDiv4 | lib/chat-service.ts:261-262 | The token estimate is the least whole number of fours that covers the count of UTF-16 code units. |
| ChatService.TotalCharsOfMessages | lib/chat-service.ts:261 | The `length` counted for `tokensIn` is the UTF-16 length of the prompt, of every history turn and of the message, summed. |
| ChatService.ProviderOrder | lib/chat-service.ts:223-228 | The attempt order starts with the active provider and holds exactly the active provider and the fallback providers. |
| ChatService.ProviderOrderNoDuplicates | lib/chat-service.ts:223-228 | No provider appears twice in the attempt order. |
| ChatService.ProviderOrderKeepsFirstOccurrences | lib/chat-service.ts:223-228 | The providers of the order appear in the order of their first occurrence in the active provider followed by the fallback list. |
| ChatService.FilterAvailable | lib/chat-service.ts:231 | The candidates are exactly the configured providers of the order. |
| ChatService.FilterAvailableKeepsOrder | lib/chat-service.ts:231 | Keeping the configured providers preserves the relative order of the attempt order. |
| ChatService.FilterAvailableNoDuplicates | lib/chat-service.ts:231 | The candidates hold no duplicates either. |
| ChatService.FilterAvailableEmpty | lib/chat-service.ts:231-235 | There are no candidates exactly when no provider of the order is configured. |
| ChatService.ClassifyPriority | lib/chat-service.ts:277-299 | On the lower-cased message, a timeout keyword gives `timeout`. Otherwise `quota`/`exceeded` gives `quota`. Otherwise one of the five rate-limit keywords gives `rate_limit`. Otherwise the class is `other`. |
| ChatService.ClassifyIgnoresCase | lib/chat-service.ts:277 | The class does not depend on the case of the message. |
| ChatService.ClassifyInContext | lib/chat-service.ts:284-299 | A message classified as timeout, quota or rate limit stays classified so inside any longer text. |
| ChatService.TimeoutMessageIsTimeout | lib/chat-service.ts:13 | The rejection of the 15-second race is always classified as a timeout. |
| ChatService.Truncate | lib/chat-service.ts:304 | `substring(0, 500)` on code units: a prefix of the code units, of exactly 500 of them when there are more and of all of them otherwise. |
| ChatService.RecordError | lib/chat-service.ts:302-307 | The record names the failing provider and carries the message's class. Its text is a prefix of the message's UTF-16 code units, exactly 500 long when the message is longer and the whole message otherwise. |
| ChatService.RecordErrorWhole | lib/chat-service.ts:304 | A message of at most 500 code units is recorded whole: the record decodes back to the message. |
| ChatService.RecordErrorCut | lib/chat-service.ts:304 | When the first k characters fill exactly 500 code units, the record decodes to those k characters. |
| ChatService.RecordErrorOfAstralMessage | lib/chat-service.ts:304 | A message of 300 characters above U+FFFF (emoji, say) keeps its first 250 characters. |
| ChatService.Records | lib/chat-service.ts:302-307 | One record per failed attempt, in attempt order. |
| ChatService.WalkCandidates | lib/chat-service.ts:239-312 | The loop records at most one failure per candidate. When it succeeds, the winner is a candidate whose invocation produced the returned content. |
| ChatService.TraceShape | lib/chat-service.ts:240-258 | An attempt starts with the minute-limit check, and every call it makes concerns its own provider. |
| ChatService.TraceInvoked | lib/chat-service.ts:242-258 | An attempt invokes its provider exactly when both the minute limit and the daily quota allow it. |
| ChatService.AttemptFailures | lib/chat-service.ts:240-311 | An attempt adds a failure exactly when it fails (an exception in either check or in the call), and adds nothing when skipped. |
| ChatService.FirstAnswerIsFirst | lib/chat-service.ts:268-274 | The reference winner is the first candidate whose attempt answers, and none before it does. |
| ChatService.WalkMatchesReference | lib/chat-service.ts:239-312 | The loop stops at the first answering candidate. It returns the failures of the candidates before it and makes exactly their calls and the winner's. When nothing answers, the loop has made every candidate's calls, recorded every failure, and kept the last failure's message. |
| ChatService.FailedAttemptRecorded | lib/chat-service.ts:275-310 | Every failing candidate's failure is in the reference failure list. |
| ChatService.WalkUsages | lib/chat-service.ts:259-268 | Every minute-usage call of the loop belongs to an attempt whose provider answered and carries its token total. When the loop is won the winner's is the last call, and every other call threw, which is what made that attempt fail. |
| ChatService.GenerateChatResponse | lib/chat-service.ts:207-316 | A failure is either the no-provider error or an error starting with "All providers failed. Last error: ". A success names a configured provider of the order whose invocation produced the response and whose usage recording did not throw. `tokensIn` is the ceiling of a quarter of all messages' UTF-16 length, and `tokensOut` that of the response's. |
| ChatService.Conclude | lib/chat-service.ts:268-315 | A win returns the response, the token counts (`tokensOut` from the response's UTF-16 length), the provider and the errors collected. An exhaustion throws "All providers failed. Last error: " followed by the last failure's message. |
| ChatService.UsageRecordedOnce | lib/chat-service.ts:264-265 | When `recordMinuteUsage` never throws, a call records minute usage exactly once, for the answering provider with `tokensIn + tokensOut`, and not at all when it fails. |
| ChatService.UsageRecords | lib/chat-service.ts:259-311 | Every minute-usage call of a dispatch concerns a configured provider of the order that answered, with that answer's token total. On success the last is the returned provider's with `tokensIn + tokensOut`, and every other call threw. |
| ChatService.UsageThrowFallsThrough | lib/chat-service.ts:265-310 | When recording the first answer's usage throws, that answer is dropped with an error record of the thrown message, and the next provider's answer is returned; both usages were recorded. |
| ChatService.AstralTokensOut | lib/chat-service.ts:262 | An answer of three emoji counts six code units, so `tokensOut` is 2. |
| ChatService.StaysWithinOrder | lib/chat-service.ts:223-311 | The call touches only configured providers of the attempt order. Every error it returns names one of them and holds at most 500 code units. |
| ChatService.NoProvidersFailsFast | lib/chat-service.ts:231-235 | The call fails with "No LLM providers are configured" and no collaborator call exactly when no provider of the order is configured. |
| ChatService.InvokedOnlyWhenAllowed | lib/chat-service.ts:242-258 | A provider is invoked only when configured and allowed by both the minute limit and the daily quota. |
| ChatService.ExhaustedMessage | lib/chat-service.ts:314-315 | When no candidate answers, the error names the last failure's message (or "Unknown error"). |
| ChatService.AllSkipped | lib/chat-service.ts:237-253 | When every candidate is skipped, the error message is "All providers failed. Last error: Unknown error". |
| ChatService.FallbackScenario | lib/chat-service.ts:239-312 | Take three configured providers. The first is over its minute limit, the second times out, and the third answers. Then the third answers, with one timeout record for the second. |
| ChatService.AllRateLimitedScenario | lib/chat-service.ts:275-315 | When three providers each throw a rate-limit error, the call fails with the last one's message. |
| PortfolioContext.SelectedExperiences | lib/chat-service.ts:23-25 | At most three experiences are described. Each is full-time or current and taken from the data. |
| PortfolioContext.SelectedExperiencesArePrefix | lib/chat-service.ts:24-27 | A qualifying experience preceded by fewer than three qualifying ones is described, at that position. The first one gets the "current" heading. |
| PortfolioContext.SelectedExperiencesCount | lib/chat-service.ts:24-25 | The number described is the smaller of three and the number of qualifying experiences. |
| PortfolioContext.Heading | lib/chat-service.ts:27 | Only the first experience gets the "current experience" heading. Every other one gets the "previous experience" heading. |
| PortfolioContext.EndLabel | lib/chat-service.ts:29 | An experience's end is its end date when one is given, else "Present". |
| PortfolioContext.HighlightLines | lib/chat-service.ts:28 | At most six responsibilities are listed, the first ones in order, each as a bullet; none without responsibilities. |
| PortfolioContext.HighlightsAreLines | lib/chat-service.ts:28 | When no responsibility spans lines, cutting the highlights text at line breaks gives the bullets back. |
| PortfolioContext.EducationYear | lib/chat-service.ts:40 | An education year is the prefix of the date before its first dash. |
| PortfolioContext.EducationYearOfDate | lib/chat-service.ts:40 | The year of `y-rest` is `y`, and a date without a dash is its own year. |
| PortfolioContext.ProjectTechnologies | lib/chat-service.ts:89 | The technologies named for a project are a prefix of all of them joined by ", ", and all of them when there are at most five. |
| PortfolioContext.TechnologiesAreFirstFive | lib/chat-service.ts:89 | When no name contains ", ", splitting the text at ", " gives back exactly the first five technologies. |
| PortfolioContext.ExperienceLinks | lib/chat-service.ts:93-95 | One link per experience, in order, to `/experience/` followed by its id. |
| PortfolioContext.ExperiencePathInjective | lib/chat-service.ts:94 | Distinct experiences link to distinct pages. |
| ChatContext.OpenChat | context/ChatContext.tsx:48 | The chat becomes minimized and nothing else changes. |
| ChatContext.OpenChatWithQuestion | context/ChatContext.tsx:49-52 | The question is queued as pending and the chat becomes minimized. Nothing else changes. |
| ChatContext.CloseChat | context/ChatContext.tsx:53-60 | The chat closes with both queued questions, the messages and the session cleared. |
| ChatContext.ToggleChat | context/ChatContext.tsx:61 | The full chat closes, and any other state opens it. Nothing else changes. |
| ChatContext.ToggleFlipsOpen | context/ChatContext.tsx:46-61 | Toggling flips whether the full chat is open. |
| ChatContext.ClearInitialQuestion | context/ChatContext.tsx:62 | Only the initial question is cleared. |
| ChatContext.ClearPendingQuestion | context/ChatContext.tsx:63 | Only the pending question is cleared. |
| ChatContext.MinimizeToBar | context/ChatContext.tsx:66 | The chat becomes minimized and nothing else changes. |
| ChatContext.MinimizeToIcon | context/ChatContext.tsx:67 | The chat closes with messages, session and queues kept. |
| ChatContext.ExpandChat | context/ChatContext.tsx:68 | The chat becomes the full chat and nothing else changes. |
| ChatContext.CloseVersusMinimizeToIcon | context/ChatContext.tsx:53-67 | Closing and minimizing to the icon reach the same state. Closing additionally clears the queues, the messages and the session. |
| ChatContext.MarkMessageComplete | context/ChatContext.tsx:70-74 | The messages with that id stop typing. The list's length and order, every other field and every other message are unchanged. |
| ChatContext.MarkMessageCompleteSettles | context/ChatContext.tsx:70-74 | Afterwards no message with that id is typing, and marking again changes nothing. |
| ChatContext.MarkMessageCompleteCommutes | context/ChatContext.tsx:70-74 | Completing two ids gives the same state in either order. |
| ChatContext.ClearChat | context/ChatContext.tsx:76-79 | Messages and session are cleared. The chat state and the queues are kept. |
| ChatContext.SendBegin | context/ChatContext.tsx:81-90 | The user's message is appended, stamped with the clock, and loading starts. Nothing else changes. |
| ChatContext.AnswerMessage | context/ChatContext.tsx:112-129 | The answer is a typing assistant message stamped one after the clock. It carries the server's text or the fixed error text. |
| ChatContext.AdoptSession | context/ChatContext.tsx:108-110 | The session changes only to a non-empty session received with the reply. |
| ChatContext.SendFinish | context/ChatContext.tsx:102-133 | Exactly one answer is appended and loading stops. The session is adopted only from a successful reply, and the chat state and queues are kept. |
| ChatContext.SendRoundTrip | context/ChatContext.tsx:81-134 | A send appends exactly the user's message, then the answer, and ends with loading off. Its session changes only to one the reply carried. |
| ChatContext.RunKeepsReachable | context/ChatContext.tsx:36-134 | Every sequence of actions keeps the initial question empty, and only assistant messages ever type. |
| ChatContext.InitialQuestionNeverSet | context/ChatContext.tsx:62 | From the initial state no sequence of actions queues an initial question. |
| ChatWidget.WidgetSurfaces | components/ChatWidget/ChatWidget.tsx:14-36 | The widget shows the floating button exactly when closed and the mini chat exactly when minimized, and never the full chat. |
| ChatWidget.PageSurfaces | lib/registry.tsx:18 | The full chat is on the page exactly when the chat is expanded. |
| ChatWidget.ExactlyOneSurface | components/ChatWidget/ChatWidget.tsx:14-36 | In every state exactly one chat surface is on the page: the button when closed, the mini chat when minimized, the full chat when expanded. |
| ChatWidget.SurfacesDetermineState | components/ChatWidget/ChatWidget.tsx:14-36 | The surface on the page tells the chat state. |
| ChatWidget.FloatingButtonOpensMiniChat | components/ChatWidget/ChatWidget.tsx:18-32 | Clicking the floating button puts the mini chat, alone, on the page, and changes nothing but the state. |
| Markdown.FirstIndexOf | components/Hero/ChatModal.tsx:13 | The search finds the first occurrence of a character from a position, or reports there is none. |
| Markdown.LazyClose | components/Hero/ChatModal.tsx:13 | A lazy `.+?` run ends at the first closing delimiter after at least one character, with no line terminator inside. |
| Markdown.LinkAt | components/Hero/ChatModal.tsx:13 | A link match covers exactly the link's source text from the position. |
| Markdown.MatchAt | components/Hero/ChatModal.tsx:13 | A match at a position covers exactly its piece's source and starts with one of `[`, `*`, `_`, backtick. |
| Markdown.MatchAtPriority | components/Hero/ChatModal.tsx:13 | At one position the first alternative that matches wins. The order is link, `**`, `__`, backtick, `*`, `_`. |
| Markdown.MatchAtNone | components/Hero/ChatModal.tsx:13 | Nothing matches at a position exactly when no alternative does. |
| Markdown.NextMatchIsLeftmost | components/Hero/ChatModal.tsx:17 | Each search reports the match at the leftmost matching position, and no match starts before it. |
| Markdown.GapBefore | components/Hero/ChatModal.tsx:18-20 | A plain piece is emitted exactly when text lies between the last match and the next. It is exactly that text. |
| Markdown.Tokens | components/Hero/ChatModal.tsx:17-51 | The scan emits nothing only for empty text and never emits an empty plain piece. |
| Markdown.TokensRoundTrip | components/Hero/ChatModal.tsx:17-51 | The pieces' source texts, laid end to end, give the input back: no overlap and nothing lost. |
| Markdown.TokensAreTheScan | components/ChatWidget/MiniChat.tsx:17-48 | Each emitted piece is where the scan sees it. A styled piece is the match found at its offset, and no match starts inside a plain piece. |
| Markdown.GapsAreMaximal | components/ChatWidget/MiniChat.tsx:17-48 | Two plain pieces are never adjacent. |
| Markdown.SingleGapIff | components/ChatWidget/MiniChat.tsx:47-50 | The output is one plain piece holding the whole text exactly when the text is non-empty and matches nowhere. |
| Markdown.Render | components/ChatWidget/MiniChat.tsx:21-44 | Links become anchors to their URL, opening a new tab exactly when the URL starts with "http". `**`/`__` become strong text, backtick code, and `*`/`_` emphasis. The text is kept. |
| Markdown.ParseMarkdown | components/Hero/ChatModal.tsx:49-52 | The text comes back unchanged exactly when it is empty; otherwise one element per piece, in order. |
| Markdown.RelativeLinkExample | components/Hero/ChatModal.tsx:22-35 | `x [t](/u) y` renders as a span, an anchor to `/u` in the same tab, and a span. |
| Markdown.StrongBeforeEmphasisExample | components/Hero/ChatModal.tsx:36-47 | `**a** *` renders as strong `a` followed by the unmatched ` *` as plain text. |
| TypedMessage.Words | components/Hero/ChatModal.tsx:62 | The reply is cut into at least one word, and joining the words with spaces gives it back. |
| TypedMessage.Displayed | components/Hero/ChatModal.tsx:77 | The text on screen is always a prefix of the reply. |
| TypedMessage.DisplayedWholeIff | components/Hero/ChatModal.tsx:77 | The whole reply is on screen exactly when every word is shown (or the reply is empty). |
| TypedMessage.DisplayedGrows | components/ChatWidget/MiniChat.tsx:75 | Showing one more word only extends the text on screen. |
| TypedMessage.DisplayedWords | components/ChatWidget/MiniChat.tsx:75 | Once at least one word is shown, the text on screen is exactly the first shown words. |
| TypedMessage.Step | components/ChatWidget/MiniChat.tsx:63-73 | The timer reveals one more word, and the completion callback runs only once the whole reply is on screen. |
| TypedMessage.ShownAfterTicks | components/Hero/ChatModal.tsx:65-75 | After k ticks the smaller of k and the word count is shown. |
| TypedMessage.CompletesAfterEveryWord | components/Hero/ChatModal.tsx:65-75 | The completion callback runs exactly from the tick after the last word. |
| Composer.HandleSend | components/Hero/ChatModal.tsx:148-153 | Send only when not loading and the input is not blank. The text sent is the trimmed, non-empty input, and the box is cleared. Otherwise nothing is sent and the box is kept. |
| Composer.SentTextIsStable | components/ChatWidget/MiniChat.tsx:118-123 | The text sent is already trimmed: sending it again sends the very same text. |
| Composer.HandleKeyDown | components/ChatWidget/MiniChat.tsx:125-130 | Only Enter without Shift sends, under the same guard. |
| Composer.EnabledButtonSends | components/ChatWidget/MiniChat.tsx:246-250 | A click on an enabled send button sends the trimmed input. |
| Composer.SendingLocksInput | components/ChatWidget/MiniChat.tsx:142 | From a send until its reply is revealed, the mini chat's input is disabled. |
| Composer.CompletingReplyUnlocks | components/ChatWidget/MiniChat.tsx:142 | Once the reply finishes typing, the input is enabled again (when nothing else types). |
| Composer.PendingEffect | components/ChatWidget/MiniChat.tsx:110-116 | A queued question is sent exactly when one is queued and the flag is clear. The flag is set, the queue cleared and the user message appended. Otherwise nothing changes. |
| Composer.PendingSentAtMostOnce | components/ChatWidget/MiniChat.tsx:110-116 | As long as the mini chat is not mounted afresh, its effect sends at most one question, whatever actions intervene, and none once the flag is set. |
| Composer.PendingSentOncePerMount | components/ChatWidget/MiniChat.tsx:93 | The mini chat is on the page only while minimized, and each mount starts its flag clear. Over any events its effect sends at most one question per mount: one for the current mount if its flag is clear, plus one per new mount. |
| Composer.RemountSendsAgain | components/ChatWidget/ChatWidget.tsx:34-36 | Minimizing to the icon and then queueing a question mounts the mini chat afresh, so the question is sent even though the previous mount had sent one. |
| Composer.FlagAfter | components/ChatWidget/MiniChat.tsx:93 | The flag survives an action only while the mini chat stays mounted. A new mount starts it clear. |
| Composer.LaterQuestionStaysQueued | components/ChatWidget/MiniChat.tsx:111 | A question queued after the first one stays queued. |
| Composer.InitialEffects | components/Hero/ChatModal.tsx:132-146 | The initial question is sent exactly when the full chat is open, one is queued and the flag is clear. The flag is then set and the question cleared. Whenever the chat is not open the flag resets. |
| Composer.InitialSentOncePerOpen | components/Hero/ChatModal.tsx:132-140 | Once the initial question is sent, no other is sent while the chat stays open. |
| Composer.InitialEffectNeverSends | components/Hero/ChatModal.tsx:133 | In every reachable state the full chat's initial-question effect sends nothing. |
| WelcomeModal.ShouldShow | components/WelcomeModal/WelcomeModal.tsx:37-41 | A missing or empty entry shows the modal. The modal stays hidden only for a readable stored time. |
| WelcomeModal.HiddenForAnHour | components/WelcomeModal/WelcomeModal.tsx:12-41 | With a stored time t, the modal shows exactly from t plus 3,600,000 ms on. |
| WelcomeModal.TitleStep | components/WelcomeModal/WelcomeModal.tsx:56-63 | Typing advances by at most one character. It completes only on a visible modal whose title is fully typed. |
| WelcomeModal.ShownTitle | components/WelcomeModal/WelcomeModal.tsx:166-169 | The title on screen is always a prefix of the title: all of it once complete, its first `index` characters before. |
| WelcomeModal.TitleTyping | components/WelcomeModal/WelcomeModal.tsx:56-63 | After k ticks k characters are typed, up to the length of the title. The next tick marks the title complete. |
| WelcomeModal.ShownTitleGrows | components/WelcomeModal/WelcomeModal.tsx:56-63 | The shown title only grows, one character per tick, and ends as the whole title. |
| WelcomeModal.Mount | components/WelcomeModal/WelcomeModal.tsx:36-52 | When due, the modal shows with the typing restarted. Otherwise nothing changes. |
| WelcomeModal.HandleClose | components/WelcomeModal/WelcomeModal.tsx:88-91 | Closing hides the modal and stores the current time. The chat is untouched. |
| WelcomeModal.HandleSendMessage | components/WelcomeModal/WelcomeModal.tsx:93-108 | Both branches hide the modal and store the time. The declining suggestion leaves the chat alone, and any other message opens the chat with exactly that question. |
| WelcomeModal.HandleSubmit | components/WelcomeModal/WelcomeModal.tsx:110-114 | Only non-blank input is routed, as its trimmed text. Blank input changes nothing. |
| WelcomeModal.HandleKeyDown | components/WelcomeModal/WelcomeModal.tsx:116-121 | Enter without Shift submits; any other key changes nothing. |
| WelcomeModal.RoutedStaysHidden | components/WelcomeModal/WelcomeModal.tsx:100-101 | Whatever the message, once it is routed the modal does not show again within the hour. |
| WelcomeModal.RoutedMessageIsSent | components/WelcomeModal/WelcomeModal.tsx:104-107 | A message other than the declining one is sent by the mini chat that mounts next. |
| WelcomeModal.SuggestionRouting | components/WelcomeModal/WelcomeModal.tsx:19-23 | The first two suggestions open the chat with themselves, and the third only closes. |
| ProjectsBento.Next | components/Projects/ProjectsBento.tsx:534-536 | The next index stays within the images. |
| ProjectsBento.Prev | components/Projects/ProjectsBento.tsx:538-540 | The previous index stays within the images. |
| ProjectsBento.NextStep | components/Projects/ProjectsBento.tsx:534-536 | The next index moves one forward, wrapping from the last image to the first. |
| ProjectsBento.PrevStep | components/Projects/ProjectsBento.tsx:538-540 | The previous index moves one back, wrapping from the first image to the last. |
| ProjectsBento.PrevNextInverse | components/Projects/ProjectsBento.tsx:534-540 | Previous undoes next, and next undoes previous. |
| ProjectsBento.CarouselStep | components/Projects/ProjectsBento.tsx:543-589 | Every event keeps the index within the images. Without controls (one image) nothing moves. The timer advances only with more than one image and no hover. |
| ProjectsBento.CarouselRun | components/Projects/ProjectsBento.tsx:543-589 | Any sequence of events keeps the index within the images. |
| ProjectsBento.SingleImageNeverMoves | components/Projects/ProjectsBento.tsx:544 | With one image the slideshow never leaves it. |
| ProjectsBento.AutoAdvanceCycles | components/Projects/ProjectsBento.tsx:543-548 | Unpaused, k timer firings move the index k forward, wrapping once past the last image. |
| ProjectsBento.AllImages | components/Projects/ProjectsBento.tsx:747-750 | The images are the cover (when present and non-empty) followed by the screenshots. |
| ProjectsBento.SlideshowShownIff | components/Projects/ProjectsBento.tsx:751-753 | The slideshow shows exactly when there is a cover or a screenshot. |
| ProjectsBento.LiveLink | components/Projects/ProjectsBento.tsx:688-690 | A live link is shown exactly when `live` or `demo` is set. It is `live` when that is set, else `demo`. |
| ProjectsBento.TechPills | components/Projects/ProjectsBento.tsx:705-710 | The first four technologies, plus a "+N" pill exactly when more exist, with N the number hidden. |
| ProjectsBento.FeaturedFirst | components/Projects/ProjectsBento.tsx:602-607 | The reference order keeps every project and puts every featured project before every other. |
| ProjectsBento.InsertIntoBlocks | components/Projects/ProjectsBento.tsx:603-607 | Inserting with the comparator places a featured project after the featured block and any other project at the end. |
| ProjectsBento.StableSortPartitions | components/Projects/ProjectsBento.tsx:602-607 | The sort gives the featured projects in data order, then the others in data order. |
| ProjectsBento.StableSortIsFeaturedFirst | components/Projects/ProjectsBento.tsx:602-607 | The sort is the featured-first reference order. |
| ProjectsBento.SortIsPermutation | components/Projects/ProjectsBento.tsx:602-607 | The sort is a permutation of the projects. |
| ProjectsBento.DisplayProjects | components/Projects/ProjectsBento.tsx:602-608 | At most five projects are displayed, all from the data, featured ones first. |
| ProjectsBento.FeaturedFillTheGrid | components/Projects/ProjectsBento.tsx:602-608 | With five or more featured projects, the first five featured ones are displayed. |
| ExperienceTimeline.CompanyColor | components/Experience/ExperienceTimeline.tsx:10-20 | A known company gets its colour and any other the default `#FF6B00`. |
| ExperienceTimeline.DefaultColorIff | components/Experience/ExperienceTimeline.tsx:10-20 | The default colour is used exactly for companies other than Capgemini and Freelance. |
| ExperienceTimeline.ParseDateRange | components/Experience/ExperienceTimeline.tsx:377-383 | The start is a prefix of the range without a separator, and the end is never empty. |
| ExperienceTimeline.NoSeparatorIsOpen | components/Experience/ExperienceTimeline.tsx:377-383 | A range without a separator is all start, and ends at "Present". |
| ExperienceTimeline.DateRangeRoundTrip | components/Experience/ExperienceTimeline.tsx:377-383 | Writing `start - end` and parsing it gives the two ends back. An empty end comes back as "Present". |
| ExperienceTimeline.ExtraPartsIgnored | components/Experience/ExperienceTimeline.tsx:378-381 | Anything after a second separator is ignored. |
| ExperienceTimeline.Timeline | components/Experience/ExperienceTimeline.tsx:375 | The first three experiences in order, and a "view all" count exactly when there are more, equal to the number hidden. |
| ExperienceTimeline.TimelineAccountsForAll | components/Experience/ExperienceTimeline.tsx:481-490 | The shown experiences and the "view all" count together account for every experience. |
| ExperienceTimeline.SkillBadges | components/Experience/ExperienceTimeline.tsx:461-466 | The first three skills, plus a "+N" badge exactly when more exist, with N the number hidden. |
| ExperienceTimeline.CardLink | components/Experience/ExperienceTimeline.tsx:433 | A card links to `/experience/` followed by its id. |
| SkillsModern.FindCategory | components/Skills/SkillsModern.tsx:279 | The search gives the first category of that name, or none when no category has it. |
| SkillsModern.Selected | components/Skills/SkillsModern.tsx:277-279 | A tab that matches no category shows nothing. Any skill a named tab shows belongs to a category of that name. |
| SkillsModern.SelectedCategory | components/Skills/SkillsModern.tsx:279 | A tab shows the items of the first category of its name. |
| SkillsModern.AllShowsEverySkill | components/Skills/SkillsModern.tsx:278 | The "all" tab shows every skill of every category. |
| SkillsModern.TotalIsSumOfCategories | components/Skills/SkillsModern.tsx:315 | The total is the sum of the categories' sizes. |
| SkillsModern.DisplayLevel | components/Skills/SkillsModern.tsx:287 | The displayed level is the least whole number of twenties that reaches the level. |
| SkillsModern.DisplayLevelRange | components/Skills/SkillsModern.tsx:287 | A level in 0..100 shows 0..5, and 0 only at level 0. |
| SkillsModern.FallbackSlug | components/Skills/SkillsModern.tsx:282 | The generic slug holds only `[a-z0-9]`. |
| SkillsModern.FallbackSlugIdempotent | components/Skills/SkillsModern.tsx:282 | The generic slug of a slug is itself. |
| SkillsModern.IconSlug | components/Skills/SkillsModern.tsx:242-282 | A name with an explicit slug gets it. Any other name gets the generic slug. |
| SkillsModern.VueSlug | components/Skills/SkillsModern.tsx:282 | `Vue.js` has the slug `vuejs`. |
| SkillsModern.Format | components/Skills/SkillsModern.tsx:281-289 | A card keeps the skill's name and shows its level rounded up to twenties. An unmapped name's slug holds only `[a-z0-9]`. |
| SkillsModern.Cards | components/Skills/SkillsModern.tsx:281-289 | One card per selected skill, in order. |
| SkillsModern.CardDots | components/Skills/SkillsModern.tsx:391-393 | Exactly the card's level of the five dots are filled. |
| Seqs.Dots | components/Skills/SkillsModern.tsx:391-393 | A row of dots has its length, and the filled dots come first. |
| Seqs.DotsFilled | components/Certifications/Certifications.tsx:117-121 | The number of filled dots is the filled count clamped to the row. |
| Seqs.ShowFirst | components/Projects/ProjectsBento.tsx:705-710 | The first k items, and a hidden count exactly when more exist, equal to the number hidden. |
| Certifications.DotsFor | components/Certifications/Certifications.tsx:7-25 | A known lower-cased proficiency gets its table value. Anything else gets 3, so the result is always in 1..5. |
| Certifications.DotsIgnoreCase | components/Certifications/Certifications.tsx:24 | The lookup ignores case. |
| Certifications.FluentIsFive | components/Certifications/Certifications.tsx:11 | "Fluent" earns five dots. |
| Certifications.DotsByLevel | components/Certifications/Certifications.tsx:7-25 | Grouped by lower-cased name: native/natif/fluent/courant earn five dots, and professional/professionnel/advanced/avance earn four. Intermediate/intermediaire and every unknown proficiency earn three, basic/basique two, and beginner/debutant one. |
| Certifications.CardDots | components/Certifications/Certifications.tsx:117-121 | Exactly the proficiency's number of the five dots are filled. |
| Certifications.CertificationsColumn | components/Certifications/Certifications.tsx:33-41 | The column renders exactly when the certification list is present and non-empty. |
| Text.JsLowerIdempotent | components/Certifications/Certifications.tsx:24 | Lower-casing twice is lower-casing once. |
| Text.TrimIdempotent | components/Hero/ChatModal.tsx:149-150 | Trimming twice is trimming once. |
| Text.TrimEmptyIff | components/Hero/ChatModal.tsx:149 | The trimmed text is empty exactly when the text is all whitespace. |
| Text.JoinSplit | components/Hero/ChatModal.tsx:62 | Joining the pieces of a split with the separator gives the text back. |
| Text.SplitJoinPair | lib/chat-service.ts:89 | Splitting pieces joined by a two-character separator with distinct characters gives the pieces back when none contains the separator. |
| Text.Utf16Length | lib/chat-service.ts:261-262 | `length` counts one or two code units per character, and equals the encoding's length. |
| Text.Utf16RoundTrip | lib/chat-service.ts:304 | Decoding the UTF-16 encoding of a string gives the string back. |
| Text.Utf16LengthIsLength | lib/chat-service.ts:261-262 | The UTF-16 length equals the character count exactly when no character lies above U+FFFF. |
| Text.ParseIntOfNatToString | components/WelcomeModal/WelcomeModal.tsx:39 | `parseInt` reads back the decimal text of a time. |

## Left out

- The timeout race `withTimeout` (lib/chat-service.ts:9-16) is not modelled as time. An invocation's outcome is a parameter: a response, a timeout (which raises the race's rejection message), or an exception.
- The provider registry and quota modules (lib/providers, lib/providers/quota) are not part of this model. Availability, the minute limit, the daily quota and the invocation are oracle functions of the provider. Each provider is attempted at most once per call, so one answer per provider is as general as any sequence of answers. Concurrent use of the minute counters is not observable here.
- The wording of the system prompt (lib/chat-service.ts:97-182) is not modelled, and neither is its assembly from the skills, languages, interests and achievements lists. Only the structural selection rules are modelled. The prompt is a parameter of the dispatch.
- Console logging and the floating-point `percentRequests` display (lib/chat-service.ts:255) only produce log text.
- The `timestamp` fields of messages and error records are not modelled: they are clock readings with no effect on the logic.
- ChatService.TotalCharsOfMessages: the source sums `length / 4` as floating-point numbers and takes the ceiling. Every quarter of an integer is exact in binary, so the sum is exact for any realistic length. The model takes the ceiling of the integer total divided by four.
- The network request of `sendMessage` is not modelled. Its outcome is the `Reply` parameter of `ChatContext.SendFinish`: the server's message and session, or a failure.
- HeroChat.tsx is not part of this model. It is a second, fetch-based chat widget that the page does not mount, and its message handling repeats `sendMessage`.
- data/portfolio.data.ts is not part of this model. It maps a JSON file, and its date formatting depends on locale APIs. The sections take their data as parameters.
- Styling, layout and animation (the `*.styles.ts` files, Hero.tsx, WeneedsArchitecture.tsx, FloatingChatButton.tsx, the page, the global styles and theme) carry no logic worth modelling. The same goes for the mouse-tilt motion of Skills.tsx.
- Delays (1.5 s before the welcome modal, 20 ms per title character, 300 ms and 400 ms before its message and suggestions, 150 ms before the chat opens, 300 ms before the initial question, 30 ms per word, 4 s per slide) are not modelled. Each firing is one step. The welcome modal's message and suggestion reveal is not modelled either.
- DOM focus, scrolling and the Escape-key handlers are not modelled: they change no modelled state except through `closeChat` and `handleClose`, which are modelled.
- `localStorage` is not modelled as storage. The entry read is a parameter, and each write is reported in the handler's result as the decimal text of the clock.
- JavaScript lookups that fall through to the object prototype (a company named `constructor`, say) are not modelled: the maps hold only their own keys.
- SkillsModern.Format: levels are integers here, while the source divides a possibly fractional level. The data's levels are whole numbers.
- SkillsModern.IconSlug: the model makes no claim about the characters of the explicit slugs in the table, only about the generic rule.
- The full chat's initial-question effect is modelled (`Composer.InitialEffects`), but no action of the chat context ever queues an initial question (`InitialQuestionNeverSet`), so in the running site it never sends.
- The mini chat's one-shot flag is never reset while the mini chat stays mounted. A question queued after the first one is therefore not sent until the mini chat mounts again (`LaterQuestionStaysQueued`).
- The project modal's long description and feature list are display-only fallbacks (`longDescription || description`) and are not modelled.
- In the date-range parser, `parts[1] || 'Present'` also turns an empty end (a range ending in the separator) into "Present". The model follows the code.
- The `|| default` fallbacks of the colour, icon and proficiency tables are modelled as written, but every table value is non-empty (non-zero), so they only matter for missing keys.
- Text.JsLower: it lowers ASCII capitals, KELVIN SIGN and LATIN CAPITAL LETTER I WITH DOT ABOVE as JavaScript does, and keeps every other character. JavaScript lowers other capitals too (`É` to `é`). Those lower to characters outside ASCII, and every use here compares the result with ASCII text only, so the keyword tests, table lookups and slug filter come out the same.
- Thrown values are modelled as errors carrying a string `message`. A thrown value whose `message` is not a string makes `.toLowerCase()` (lib/chat-service.ts:277) throw inside the `catch`, which ends the whole call with that new error. The model does not represent this.
- The mini chat is unmounted the moment the chat state leaves `minimized`. The exit animation, during which the old instance is still on the page, is not modelled.
- The walk records no error for a provider skipped by its minute limit or daily quota. So in the scenario of an over-limit first provider, a timing-out second and an answering third, the response carries one error record (the timeout), not two.
