/**
 * The multi-provider chat dispatch of `lib/chat-service.ts`
 * (`generateChatResponse`): build the message list, compute the provider
 * attempt order, keep the configured providers, then walk them in order —
 * skip on a minute-limit or daily-quota denial, record one classified error
 * per failure, return on the first answer — and fail with an aggregate
 * message when every candidate is exhausted.
 *
 * The provider registry, the quota tracker and the invocation itself are not
 * part of this model: they are the oracle functions of `Oracles`, and each of
 * the quota tracker's calls may throw. Within one
 * call every provider is attempted at most once (the attempt order has no
 * duplicates), so an oracle that answers per provider is as general as any
 * sequence of answers. Every oracle call the source makes is recorded as an
 * `Event`, so that "not invoked" and "recorded exactly once" are statements
 * about the trace.
 */
module ChatService {
  import opened Wrappers
  import opened Text

  type Provider = string

  // ---------------------------------------------------------------------------
  // Message list
  // ---------------------------------------------------------------------------

  /** A turn of the caller's conversation history; `role` is whatever the request carried. */
  datatype HistoryTurn = HistoryTurn(role: string, content: string)

  /** A message handed to a provider. */
  datatype LlmMessage =
    | SystemMessage(content: string)
    | HumanMessage(content: string)
    | AiMessage(content: string)

  /** A history turn becomes a human message when its role is `user` and an AI message otherwise. */
  function ToLlmMessage(turn: HistoryTurn): LlmMessage {
    if turn.role == "user" then HumanMessage(turn.content) else AiMessage(turn.content)
  }

  /** The message list: the system prompt, then the mapped history, then the user's message. */
  function BuildMessages(systemPrompt: string, history: seq<HistoryTurn>, message: string): (msgs: seq<LlmMessage>)
    ensures |msgs| == |history| + 2
    ensures msgs[0] == SystemMessage(systemPrompt)
    ensures msgs[|msgs| - 1] == HumanMessage(message)
    ensures forall i :: 0 <= i < |history| ==>
      && msgs[i + 1].content == history[i].content
      && !msgs[i + 1].SystemMessage?
      && (msgs[i + 1].HumanMessage? <==> history[i].role == "user")
  {
    var mapped := seq(|history|, i requires 0 <= i < |history| => ToLlmMessage(history[i]));
    [SystemMessage(systemPrompt)] + mapped + [HumanMessage(message)]
  }

  /** The contents of a message list, in order. */
  function Contents(msgs: seq<LlmMessage>): seq<string> {
    seq(|msgs|, i requires 0 <= i < |msgs| => msgs[i].content)
  }

  /** The history's contents reach the provider unchanged and in order, between the prompt and the message. */
  lemma BuildMessagesContents(systemPrompt: string, history: seq<HistoryTurn>, message: string)
    ensures Contents(BuildMessages(systemPrompt, history, message))
      == [systemPrompt] + seq(|history|, i requires 0 <= i < |history| => history[i].content) + [message]
  {
    var msgs := BuildMessages(systemPrompt, history, message);
    var middle := seq(|history|, i requires 0 <= i < |history| => history[i].content);
    var rhs := [systemPrompt] + middle + [message];
    forall i | 0 <= i < |msgs|
      ensures Contents(msgs)[i] == rhs[i]
    {
      if 0 < i < |msgs| - 1 {
        assert rhs[i] == middle[i - 1];
      }
    }
  }

  // ---------------------------------------------------------------------------
  // Token estimate
  // ---------------------------------------------------------------------------

  /** `Math.ceil(n / 4)` for a count `n` of UTF-16 code units. */
  function CeilDiv4(n: nat): (r: nat)
    ensures 4 * r >= n && 4 * r < n + 4
  {
    (n + 3) / 4
  }

  /** The `length` of all messages together, in UTF-16 code units. */
  function TotalChars(msgs: seq<LlmMessage>): nat
    decreases |msgs|
  {
    if |msgs| == 0 then 0 else Utf16Length(msgs[0].content) + TotalChars(msgs[1..])
  }

  /** The input estimate counts the prompt, every history turn and the message. */
  lemma {:induction false} TotalCharsOfMessages(systemPrompt: string, history: seq<HistoryTurn>, message: string)
    ensures TotalChars(BuildMessages(systemPrompt, history, message))
      == Utf16Length(systemPrompt) + HistoryChars(history) + Utf16Length(message)
  {
    var msgs := BuildMessages(systemPrompt, history, message);
    assert msgs[1..] == BuildMessages(systemPrompt, history, message)[1..];
    TotalCharsTail(history, message, msgs[1..]);
  }

  function HistoryChars(history: seq<HistoryTurn>): nat
    decreases |history|
  {
    if |history| == 0 then 0 else Utf16Length(history[0].content) + HistoryChars(history[1..])
  }

  lemma {:induction false} TotalCharsTail(history: seq<HistoryTurn>, message: string, tail: seq<LlmMessage>)
    requires |tail| == |history| + 1
    requires forall i :: 0 <= i < |history| ==> tail[i].content == history[i].content
    requires tail[|history|] == HumanMessage(message)
    ensures TotalChars(tail) == HistoryChars(history) + Utf16Length(message)
    decreases |history|
  {
    if |history| > 0 {
      TotalCharsTail(history[1..], message, tail[1..]);
    }
  }

  // ---------------------------------------------------------------------------
  // Provider attempt order
  // ---------------------------------------------------------------------------

  predicate NoDuplicates(xs: seq<Provider>) {
    forall i, j :: 0 <= i < j < |xs| ==> xs[i] != xs[j]
  }

  /** The position of the first occurrence of `x` in `xs`. */
  function IndexIn(xs: seq<Provider>, x: Provider): (i: nat)
    requires x in xs
    ensures i < |xs| && xs[i] == x && x !in xs[..i]
    decreases |xs|
  {
    if xs[0] == x then 0 else 1 + IndexIn(xs[1..], x)
  }

  /** Appends to `acc`, in order, each provider of `rest` that is not already present (the loop of lines 223-228). */
  function AppendNew(acc: seq<Provider>, rest: seq<Provider>): (r: seq<Provider>)
    ensures |r| >= |acc| && r[..|acc|] == acc
    ensures forall p :: p in r <==> p in acc || p in rest
    decreases |rest|
  {
    if |rest| == 0 then acc
    else if rest[0] in acc then AppendNew(acc, rest[1..])
    else AppendNew(acc + [rest[0]], rest[1..])
  }

  /** Appending only providers not yet present keeps a list free of repeats. */
  lemma {:induction false} AppendNewNoDuplicates(acc: seq<Provider>, rest: seq<Provider>)
    requires NoDuplicates(acc)
    ensures NoDuplicates(AppendNew(acc, rest))
    decreases |rest|
  {
    if |rest| > 0 {
      if rest[0] in acc {
        AppendNewNoDuplicates(acc, rest[1..]);
      } else {
        var more := acc + [rest[0]];
        assert forall i :: 0 <= i < |acc| ==> more[i] == acc[i];
        AppendNewNoDuplicates(more, rest[1..]);
      }
    }
  }

  /** The attempt order: the active provider, then each fallback provider not seen before. */
  function ProviderOrder(active: Provider, fallback: seq<Provider>): (order: seq<Provider>)
    ensures |order| >= 1 && order[0] == active
    ensures forall p :: p in order <==> p == active || p in fallback
  {
    AppendNew([active], fallback)
  }

  /** No provider is attempted twice. */
  lemma ProviderOrderNoDuplicates(active: Provider, fallback: seq<Provider>)
    ensures NoDuplicates(ProviderOrder(active, fallback))
  {
    AppendNewNoDuplicates([active], fallback);
  }

  /** A position holding `x` with no earlier `x` is the first occurrence. */
  lemma {:induction false} IndexInUnique(xs: seq<Provider>, x: Provider, k: nat)
    requires k < |xs| && xs[k] == x && x !in xs[..k]
    ensures IndexIn(xs, x) == k
    decreases k
  {
    if k > 0 {
      assert xs[0] in xs[..k];
      assert xs[1..][k - 1] == x && xs[1..][..k - 1] == xs[..k][1..];
      IndexInUnique(xs[1..], x, k - 1);
    }
  }

  lemma IndexInPrefix(pre: seq<Provider>, rest: seq<Provider>, x: Provider)
    requires x in pre
    ensures IndexIn(pre + rest, x) == IndexIn(pre, x)
  {
    var j := IndexIn(pre, x);
    assert (pre + rest)[..j] == pre[..j];
    IndexInUnique(pre + rest, x, j);
  }

  lemma IndexInAfterPrefix(pre: seq<Provider>, rest: seq<Provider>)
    requires |rest| > 0 && rest[0] !in pre
    ensures IndexIn(pre + rest, rest[0]) == |pre|
  {
    assert (pre + rest)[..|pre|] == pre;
    IndexInUnique(pre + rest, rest[0], |pre|);
  }

  /** `xs` lists providers of `input` by the position of their first occurrence there. */
  ghost predicate FirstOccurrenceOrdered(xs: seq<Provider>, input: seq<Provider>) {
    && (forall p :: p in xs ==> p in input)
    && forall i, j :: 0 <= i < j < |xs| ==> IndexIn(input, xs[i]) < IndexIn(input, xs[j])
  }

  lemma OrderedExtendInput(xs: seq<Provider>, pre: seq<Provider>, more: seq<Provider>)
    requires FirstOccurrenceOrdered(xs, pre)
    ensures FirstOccurrenceOrdered(xs, pre + more)
  {
    forall p | p in xs
      ensures IndexIn(pre + more, p) == IndexIn(pre, p)
    {
      IndexInPrefix(pre, more, p);
    }
  }

  lemma OrderedAppendNew(xs: seq<Provider>, pre: seq<Provider>, x: Provider)
    requires FirstOccurrenceOrdered(xs, pre)
    requires x !in pre
    ensures FirstOccurrenceOrdered(xs + [x], pre + [x])
  {
    OrderedExtendInput(xs, pre, [x]);
    IndexInAfterPrefix(pre, [x]);
    var ys := xs + [x];
    forall i, j | 0 <= i < j < |ys|
      ensures IndexIn(pre + [x], ys[i]) < IndexIn(pre + [x], ys[j])
    {
      if j < |xs| {
        assert ys[i] == xs[i] && ys[j] == xs[j];
      } else {
        assert ys[i] == xs[i];
        IndexInPrefix(pre, [x], xs[i]);
      }
    }
  }

  /** The order kept by `AppendNew`: providers by the position of their first occurrence in the input. */
  lemma {:induction false} AppendNewFirstOccurrenceOrder(pre: seq<Provider>, acc: seq<Provider>, rest: seq<Provider>)
    requires NoDuplicates(acc)
    requires forall p :: p in acc <==> p in pre
    requires FirstOccurrenceOrdered(acc, pre)
    ensures FirstOccurrenceOrdered(AppendNew(acc, rest), pre + rest)
    decreases |rest|
  {
    if |rest| == 0 {
      assert pre + rest == pre;
    } else {
      var x := rest[0];
      assert pre + [x] + rest[1..] == pre + rest;
      if x in acc {
        OrderedExtendInput(acc, pre, [x]);
        AppendNewFirstOccurrenceOrder(pre + [x], acc, rest[1..]);
      } else {
        OrderedAppendNew(acc, pre, x);
        AppendNewFirstOccurrenceOrder(pre + [x], acc + [x], rest[1..]);
      }
    }
  }

  /** Providers appear in the attempt order by the position of their first mention in `[active] + fallback`. */
  lemma ProviderOrderKeepsFirstOccurrences(active: Provider, fallback: seq<Provider>)
    ensures FirstOccurrenceOrdered(ProviderOrder(active, fallback), [active] + fallback)
  {
    AppendNewFirstOccurrenceOrder([active], [active], fallback);
  }

  /** The configured providers of `order`, in order (line 231). */
  function FilterAvailable(order: seq<Provider>, available: Provider -> bool): (cands: seq<Provider>)
    ensures forall p :: p in cands <==> p in order && available(p)
    ensures |cands| <= |order|
    decreases |order|
  {
    if |order| == 0 then []
    else if available(order[0]) then [order[0]] + FilterAvailable(order[1..], available)
    else FilterAvailable(order[1..], available)
  }

  lemma IndexInTail(xs: seq<Provider>, p: Provider)
    requires NoDuplicates(xs) && |xs| > 0 && p in xs[1..]
    ensures IndexIn(xs, p) == 1 + IndexIn(xs[1..], p)
  {
    var k := IndexIn(xs[1..], p);
    assert xs[k + 1] == p;
    assert xs[..k + 1] == [xs[0]] + xs[1..][..k];
    IndexInUnique(xs, p, k + 1);
  }

  /** Filtering introduces no duplicate. */
  lemma {:induction false} FilterAvailableNoDuplicates(order: seq<Provider>, available: Provider -> bool)
    requires NoDuplicates(order)
    ensures NoDuplicates(FilterAvailable(order, available))
    decreases |order|
  {
    if |order| > 0 {
      FilterAvailableNoDuplicates(order[1..], available);
      var rest := FilterAvailable(order[1..], available);
      assert order[0] !in order[1..];
      assert order[0] !in rest;
    }
  }

  /** Filtering keeps the providers' relative order. */
  lemma {:induction false} FilterAvailableKeepsOrder(order: seq<Provider>, available: Provider -> bool)
    requires NoDuplicates(order)
    ensures FirstOccurrenceOrdered(FilterAvailable(order, available), order)
    decreases |order|
  {
    if |order| > 0 {
      var rest := FilterAvailable(order[1..], available);
      FilterAvailableKeepsOrder(order[1..], available);
      OrderedInTail(rest, order);
      if available(order[0]) {
        OrderedAfterHead(rest, order);
      }
    }
  }

  /** A list ordered by first occurrence in the tail of a duplicate-free input is ordered in the whole input. */
  lemma OrderedInTail(xs: seq<Provider>, order: seq<Provider>)
    requires NoDuplicates(order) && |order| > 0
    requires FirstOccurrenceOrdered(xs, order[1..])
    ensures FirstOccurrenceOrdered(xs, order)
  {
    forall p | p in xs
      ensures IndexIn(order, p) == 1 + IndexIn(order[1..], p)
    {
      IndexInTail(order, p);
    }
  }

  /** Putting the input's head in front of a list ordered in the input's tail keeps it ordered. */
  lemma OrderedAfterHead(xs: seq<Provider>, order: seq<Provider>)
    requires NoDuplicates(order) && |order| > 0
    requires FirstOccurrenceOrdered(xs, order[1..]) && FirstOccurrenceOrdered(xs, order)
    ensures FirstOccurrenceOrdered([order[0]] + xs, order)
  {
    var ys := [order[0]] + xs;
    assert IndexIn(order, order[0]) == 0;
    forall i, j | 0 <= i < j < |ys|
      ensures IndexIn(order, ys[i]) < IndexIn(order, ys[j])
    {
      assert ys[j] == xs[j - 1];
      IndexInTail(order, xs[j - 1]);
      if i > 0 {
        assert ys[i] == xs[i - 1];
      }
    }
  }

  /** Nothing is left exactly when no provider of `order` is configured. */
  lemma {:induction false} FilterAvailableEmpty(order: seq<Provider>, available: Provider -> bool)
    ensures FilterAvailable(order, available) == [] <==> forall p :: p in order ==> !available(p)
    decreases |order|
  {
    if |order| > 0 {
      FilterAvailableEmpty(order[1..], available);
      assert forall p :: p in order <==> p == order[0] || p in order[1..];
    }
  }

  /** The providers tried by one call, in attempt order. */
  function Candidates(active: Provider, fallback: seq<Provider>, available: Provider -> bool): seq<Provider> {
    FilterAvailable(ProviderOrder(active, fallback), available)
  }

  // ---------------------------------------------------------------------------
  // Collaborators as oracles
  // ---------------------------------------------------------------------------

  /** The answer of `checkMinuteLimit`: allowed, denied, or an exception. */
  datatype MinuteCheck = MinuteAllowed | MinuteDenied | MinuteThrew(message: string)

  /** The answer of `checkDailyQuota`: available, exhausted, or an exception (a failed store read, say). */
  datatype QuotaCheck = QuotaAvailable | QuotaExhausted | QuotaThrew(message: string)

  /** What `getProvider(p).invoke(messages)` under the 15-second race produced. */
  datatype Invocation = Responded(content: string) | TimedOut | InvokeThrew(message: string)

  /** What `recordMinuteUsage` did: stored the usage, or threw (still inside the `try`). */
  datatype UsageRecording = UsageStored | UsageThrew(message: string)

  datatype Oracles = Oracles(
    available: Provider -> bool,
    minute: Provider -> MinuteCheck,
    quota: Provider -> QuotaCheck,
    invoke: Provider -> Invocation,
    usage: Provider -> UsageRecording)

  /** A call the dispatch makes on a collaborator. */
  datatype Event =
    | MinuteChecked(provider: Provider)
    | QuotaChecked(provider: Provider)
    | Invoked(provider: Provider)
    | UsageRecorded(provider: Provider, tokens: nat)

  // ---------------------------------------------------------------------------
  // Error records
  // ---------------------------------------------------------------------------

  datatype ErrorType = Timeout | Quota | RateLimit | Other

  /**
   * An entry of the `errors` array. The error text is kept as the UTF-16
   * code units of the JavaScript string, because the 500-unit cut may fall
   * between the two halves of a surrogate pair.
   */
  datatype ProviderError = ProviderError(provider: Provider, error: seq<CodeUnit>, errorType: ErrorType)

  const ProviderTimeoutMs: nat := 15000
  const MaxErrorLength: nat := 500

  /** The message of the timeout rejection raised by `withTimeout` (line 13). */
  function TimeoutMessage(p: Provider): string {
    "Timeout: " + p + " did not respond within " + NatToString(ProviderTimeoutMs / 1000) + "s"
  }

  const TimeoutKeywords: seq<string> := ["timeout"]
  const QuotaKeywords: seq<string> := ["quota", "exceeded"]
  const RateLimitKeywords: seq<string> :=
    ["rate limit", "rate_limit", "429", "too many requests", "resource_exhausted"]

  /** Some keyword of `keys` occurs in `m`. */
  predicate MentionsAny(m: string, keys: seq<string>)
    decreases |keys|
  {
    |keys| > 0 && (Contains(m, keys[0]) || MentionsAny(m, keys[1..]))
  }

  lemma {:induction false} MentionsAnyInContext(a: string, m: string, b: string, keys: seq<string>)
    requires MentionsAny(m, keys)
    ensures MentionsAny(a + m + b, keys)
    decreases |keys|
  {
    if Contains(m, keys[0]) {
      ContainsInContext(a, m, b, keys[0]);
    } else {
      MentionsAnyInContext(a, m, b, keys[1..]);
    }
  }

  /** One test of the classification: a keyword list and the class it gives. */
  datatype Rule = Rule(keywords: seq<string>, kind: ErrorType)

  /** The tests of lines 283-295, in the order they are tried. */
  const Rules: seq<Rule> := [Rule(TimeoutKeywords, Timeout), Rule(QuotaKeywords, Quota), Rule(RateLimitKeywords, RateLimit)]

  /** The class of the first rule with a keyword in `m`, or `Other` when none has one. */
  function FirstRule(m: string, rules: seq<Rule>): ErrorType
    decreases |rules|
  {
    if |rules| == 0 then Other
    else if MentionsAny(m, rules[0].keywords) then rules[0].kind
    else FirstRule(m, rules[1..])
  }

  /** The priority-ordered keyword test on the lower-cased message (lines 277-299). */
  function Classify(message: string): ErrorType {
    FirstRule(JsLower(message), Rules)
  }

  /**
   * The priority of the classification: a timeout keyword wins; otherwise a
   * quota keyword; otherwise a rate-limit keyword; otherwise `Other`. The
   * keywords are looked for in the lower-cased message.
   */
  lemma ClassifyPriority(message: string)
    ensures var m := JsLower(message);
      var timeout, quota, rateLimit :=
        MentionsAny(m, TimeoutKeywords), MentionsAny(m, QuotaKeywords), MentionsAny(m, RateLimitKeywords);
      Classify(message) == if timeout then Timeout else if quota then Quota else if rateLimit then RateLimit else Other
  {
    var m := JsLower(message);
    assert Rules[1..] == [Rule(QuotaKeywords, Quota), Rule(RateLimitKeywords, RateLimit)];
    assert Rules[1..][1..] == [Rule(RateLimitKeywords, RateLimit)];
    assert Rules[1..][1..][1..] == [];
    assert Classify(message) == FirstRule(m, Rules);
    if !MentionsAny(m, TimeoutKeywords) {
      assert FirstRule(m, Rules) == FirstRule(m, Rules[1..]);
      if !MentionsAny(m, QuotaKeywords) {
        assert FirstRule(m, Rules[1..]) == FirstRule(m, Rules[1..][1..]);
        if !MentionsAny(m, RateLimitKeywords) {
          assert FirstRule(m, Rules[1..][1..]) == FirstRule(m, Rules[1..][1..][1..]);
        }
      }
    }
  }

  /** `s.substring(0, n)` on the code units of a JavaScript string. */
  function Truncate(units: seq<CodeUnit>, n: nat): (r: seq<CodeUnit>)
    ensures |r| <= n && r <= units
    ensures |r| == if |units| <= n then |units| else n
  {
    if |units| <= n then units else units[..n]
  }

  /** The record pushed for a failed attempt: the message cut to 500 code units, and its class. */
  function RecordError(p: Provider, message: string): (e: ProviderError)
    ensures e.provider == p && e.errorType == Classify(message)
    ensures e.error <= Utf16(message)
    ensures |e.error| == if Utf16Length(message) <= MaxErrorLength then Utf16Length(message) else MaxErrorLength
  {
    ProviderError(p, Truncate(Utf16(message), MaxErrorLength), Classify(message))
  }

  /** A message of at most 500 code units is recorded whole: its record reads back as the message. */
  lemma RecordErrorWhole(p: Provider, message: string)
    requires Utf16Length(message) <= MaxErrorLength
    ensures Utf16Decode(RecordError(p, message).error) == Some(message)
  {
    assert RecordError(p, message).error == Utf16(message);
    Utf16RoundTrip(message);
  }

  /**
   * When the first `k` characters of a message fill exactly 500 code units,
   * the record reads back as those `k` characters.
   */
  lemma RecordErrorCut(p: Provider, message: string, k: nat)
    requires k <= |message| && Utf16Length(message[..k]) == MaxErrorLength
    ensures Utf16Decode(RecordError(p, message).error) == Some(message[..k])
  {
    assert message == message[..k] + message[k..];
    Utf16Append(message[..k], message[k..]);
    assert RecordError(p, message).error == Utf16(message[..k]);
    Utf16RoundTrip(message[..k]);
  }

  /** A message of 300 characters above U+FFFF is recorded as its first 250 characters. */
  lemma RecordErrorOfAstralMessage(p: Provider, message: string)
    requires |message| == 300 && forall i :: 0 <= i < |message| ==> message[i] as int >= 0x1_0000
    ensures Utf16Decode(RecordError(p, message).error) == Some(message[..250])
  {
    Utf16LengthAstral(message[..250]);
    RecordErrorCut(p, message, 250);
  }

  /** A failed attempt as the loop sees it, before its record is built: the provider and the caught message. */
  datatype FailedAttempt = FailedAttempt(provider: Provider, message: string)

  /** The `errors` array: one record per failed attempt, in order. */
  function Records(fs: seq<FailedAttempt>): (es: seq<ProviderError>)
    ensures |es| == |fs|
    ensures forall i :: 0 <= i < |fs| ==>
      && es[i].provider == fs[i].provider
      && es[i].error <= Utf16(fs[i].message) && |es[i].error| <= MaxErrorLength
      && es[i].errorType == Classify(fs[i].message)
  {
    seq(|fs|, i requires 0 <= i < |fs| => RecordError(fs[i].provider, fs[i].message))
  }

  /** The class does not depend on letter case. */
  lemma ClassifyIgnoresCase(message: string)
    ensures Classify(JsLower(message)) == Classify(message)
  {
    JsLowerIdempotent(message);
  }

  lemma ContainsInContext(a: string, m: string, b: string, key: string)
    requires Contains(m, key)
    ensures Contains(a + m + b, key)
  {
    var i :| 0 <= i <= |m| && key <= m[i..];
    var s := a + m + b;
    assert s[|a| + i..] == m[i..] + b;
    assert key <= s[|a| + i..];
  }

  /** A keyword found by some rule is still found, by a rule no later, in any surrounding text. */
  lemma {:induction false} FirstRuleInContext(a: string, m: string, b: string, rules: seq<Rule>)
    requires forall k :: 0 <= k < |rules| ==> rules[k].kind != Other
    requires FirstRule(m, rules) != Other
    ensures FirstRule(a + m + b, rules) != Other
    decreases |rules|
  {
    if MentionsAny(m, rules[0].keywords) {
      MentionsAnyInContext(a, m, b, rules[0].keywords);
    } else if !MentionsAny(a + m + b, rules[0].keywords) {
      FirstRuleInContext(a, m, b, rules[1..]);
    }
  }

  /** A message recognised as a timeout, quota or rate-limit error stays recognised whatever text surrounds it. */
  lemma ClassifyInContext(a: string, message: string, b: string)
    requires Classify(message) != Other
    ensures Classify(a + message + b) != Other
  {
    var whole := a + message + b;
    JsLowerAppend(a, message);
    JsLowerAppend(a + message, b);
    assert JsLower(whole) == JsLower(a) + JsLower(message) + JsLower(b);
    FirstRuleInContext(JsLower(a), JsLower(message), JsLower(b), Rules);
  }

  lemma LowerTimeoutPrefix(rest: string)
    ensures MentionsAny(JsLower("Timeout:" + rest), TimeoutKeywords)
  {
    assert "Timeout:" + rest == ['T'] + "imeout:" + rest;
    LowerCapitalized('T', "imeout:", rest);
    assert [('T' as int + 32) as char] + "imeout:" == "timeout:";
    ContainsOfPrefix("timeout:", JsLower(rest), "timeout");
    assert TimeoutKeywords[0] == "timeout";
  }

  /** The rejection raised by the timeout race is always classified as a timeout. */
  lemma TimeoutMessageIsTimeout(p: Provider)
    ensures Classify(TimeoutMessage(p)) == Timeout
  {
    var tail := " " + p + " did not respond within " + NatToString(ProviderTimeoutMs / 1000) + "s";
    assert TimeoutMessage(p) == "Timeout:" + tail;
    LowerTimeoutPrefix(tail);
    assert Rules[0] == Rule(TimeoutKeywords, Timeout);
  }

  // ---------------------------------------------------------------------------
  // One attempt
  // ---------------------------------------------------------------------------

  datatype StepOutcome = Skipped | Failed(message: string) | Answered(content: string)

  /** The attempt on `p` got past both checks and the provider answered, so it calls `recordMinuteUsage`. */
  predicate Responds(p: Provider, o: Oracles) {
    o.minute(p) == MinuteAllowed && o.quota(p) == QuotaAvailable && o.invoke(p).Responded?
  }

  /** The `recordMinuteUsage` call of a responding attempt: the prompt estimate plus the answer's `Math.ceil(length / 4)`. */
  function UsageOf(p: Provider, o: Oracles, tokensIn: nat): Event
    requires Responds(p, o)
  {
    UsageRecorded(p, tokensIn + CeilDiv4(Utf16Length(o.invoke(p).content)))
  }

  /** What the attempt on `p` comes to (the body of the `try`, lines 240-311). */
  function Outcome(p: Provider, o: Oracles): (r: StepOutcome)
    ensures r.Answered? <==> Responds(p, o) && o.usage(p) == UsageStored
    ensures r.Answered? ==> o.invoke(p) == Responded(r.content)
  {
    match o.minute(p)
    case MinuteDenied => Skipped
    case MinuteThrew(m) => Failed(m)
    case MinuteAllowed =>
      match o.quota(p)
      case QuotaExhausted => Skipped
      case QuotaThrew(m) => Failed(m)
      case QuotaAvailable =>
        match o.invoke(p)
        case Responded(c) =>
          (match o.usage(p)
           case UsageStored => Answered(c)
           case UsageThrew(m) => Failed(m))
        case TimedOut => Failed(TimeoutMessage(p))
        case InvokeThrew(m) => Failed(m)
  }

  /** The collaborator calls made by the attempt on `p`. */
  function Trace(p: Provider, o: Oracles, tokensIn: nat): seq<Event> {
    match o.minute(p)
    case MinuteAllowed =>
      (match o.quota(p)
       case QuotaAvailable =>
         [MinuteChecked(p), QuotaChecked(p), Invoked(p)]
           + (match o.invoke(p)
              case Responded(c) => [UsageRecorded(p, tokensIn + CeilDiv4(Utf16Length(c)))]
              case _ => [])
       case _ => [MinuteChecked(p), QuotaChecked(p)])
    case _ => [MinuteChecked(p)]
  }

  /** An attempt starts with the minute-limit check, and every call it makes concerns its own provider. */
  lemma TraceShape(p: Provider, o: Oracles, tokensIn: nat)
    ensures var evs := Trace(p, o, tokensIn);
      && |evs| >= 1 && evs[0] == MinuteChecked(p)
      && forall e :: e in evs ==> e.provider == p
  {
  }

  /**
   * Only a responding attempt records minute usage, once, with the prompt
   * and answer estimates summed; it is an answer unless that call throws.
   */
  lemma TraceUsages(p: Provider, o: Oracles, tokensIn: nat)
    ensures Usages(Trace(p, o, tokensIn)) == if Responds(p, o) then [UsageOf(p, o, tokensIn)] else []
  {
    var evs := Trace(p, o, tokensIn);
    if Responds(p, o) {
      var checks := [MinuteChecked(p), QuotaChecked(p), Invoked(p)];
      var usage := [UsageOf(p, o, tokensIn)];
      assert evs == checks + usage;
      UsagesNone(checks);
      UsagesAppend(checks, usage);
      assert Usages(usage) == usage + Usages([]);
    } else {
      UsagesNone(evs);
    }
  }

  /** An attempt invokes its provider exactly when both the minute limit and the daily quota allow it. */
  lemma TraceInvoked(p: Provider, o: Oracles, tokensIn: nat)
    ensures Invoked(p) in Trace(p, o, tokensIn) <==> o.minute(p) == MinuteAllowed && o.quota(p) == QuotaAvailable
  {
  }

  /** The `recordMinuteUsage` calls of a trace. */
  function Usages(evs: seq<Event>): (us: seq<Event>)
    decreases |evs|
  {
    if |evs| == 0 then []
    else (if evs[0].UsageRecorded? then [evs[0]] else []) + Usages(evs[1..])
  }

  lemma {:induction false} UsagesNone(evs: seq<Event>)
    requires forall e :: e in evs ==> !e.UsageRecorded?
    ensures Usages(evs) == []
    decreases |evs|
  {
    if |evs| > 0 {
      assert evs[0] in evs;
      UsagesNone(evs[1..]);
    }
  }

  lemma {:induction false} UsagesAppend(a: seq<Event>, b: seq<Event>)
    ensures Usages(a + b) == Usages(a) + Usages(b)
    decreases |a|
  {
    if |a| == 0 {
      assert a + b == b;
    } else {
      var h := if a[0].UsageRecorded? then [a[0]] else [];
      assert (a + b)[0] == a[0] && (a + b)[1..] == a[1..] + b;
      assert Usages(a + b) == h + Usages(a[1..] + b);
      UsagesAppend(a[1..], b);
    }
  }

  // ---------------------------------------------------------------------------
  // The walk over the candidates
  // ---------------------------------------------------------------------------

  datatype Walk =
    | Won(provider: Provider, content: string, failures: seq<FailedAttempt>, events: seq<Event>)
    | Exhausted(failures: seq<FailedAttempt>, lastError: Option<string>, events: seq<Event>)

  /** The `for` loop of lines 239-312, as a fold over the candidates. */
  function WalkCandidates(cands: seq<Provider>, o: Oracles, tokensIn: nat): (w: Walk)
    ensures |w.failures| <= |cands|
    ensures w.Won? ==> w.provider in cands && o.invoke(w.provider) == Responded(w.content) && o.usage(w.provider) == UsageStored
    decreases |cands|
  {
    if |cands| == 0 then Exhausted([], None, [])
    else
      var p := cands[0];
      var evs := Trace(p, o, tokensIn);
      match Outcome(p, o)
      case Answered(c) => Won(p, c, [], evs)
      case Skipped =>
        var rest := WalkCandidates(cands[1..], o, tokensIn);
        rest.(events := evs + rest.events)
      case Failed(m) =>
        var rest := WalkCandidates(cands[1..], o, tokensIn);
        var err := FailedAttempt(p, m);
        match rest
        case Won(q, c, errs, revs) => Won(q, c, [err] + errs, evs + revs)
        case Exhausted(errs, last, revs) =>
          Exhausted([err] + errs, if last.Some? then last else Some(m), evs + revs)
  }

  /** How the walk over `cands` extends the walk over its tail: one unfolding, named for the proofs below. */
  lemma WalkStep(cands: seq<Provider>, o: Oracles, tokensIn: nat)
    requires |cands| > 0
    ensures var w := WalkCandidates(cands, o, tokensIn);
      var rest := WalkCandidates(cands[1..], o, tokensIn);
      var evs := Trace(cands[0], o, tokensIn);
      match Outcome(cands[0], o)
      case Answered(c) => w == Won(cands[0], c, [], evs)
      case Skipped => w == rest.(events := evs + rest.events)
      case Failed(m) =>
        && w.events == evs + rest.events
        && w.failures == [FailedAttempt(cands[0], m)] + rest.failures
        && (w.Won? <==> rest.Won?)
        && (w.Won? ==> w.provider == rest.provider && w.content == rest.content)
        && (w.Exhausted? ==> w.lastError == if rest.lastError.Some? then rest.lastError else Some(m))
  {
  }

  /** The part of `WalkStep` about events and the winner, without the error records. */
  lemma WalkEventsStep(cands: seq<Provider>, o: Oracles, tokensIn: nat)
    requires |cands| > 0
    ensures var w := WalkCandidates(cands, o, tokensIn);
      var evs := Trace(cands[0], o, tokensIn);
      Outcome(cands[0], o).Answered? ==> w == Won(cands[0], Outcome(cands[0], o).content, [], evs)
    ensures var w := WalkCandidates(cands, o, tokensIn);
      var rest := WalkCandidates(cands[1..], o, tokensIn);
      !Outcome(cands[0], o).Answered? ==>
        && w.events == Trace(cands[0], o, tokensIn) + rest.events
        && (w.Won? <==> rest.Won?)
        && (w.Won? ==> w.provider == rest.provider && w.content == rest.content)
  {
    WalkStep(cands, o, tokensIn);
  }





  // ---------------------------------------------------------------------------
  // Reference description of the walk
  // ---------------------------------------------------------------------------

  /** The index of the first candidate whose attempt answers. */
  function FirstAnswer(cands: seq<Provider>, o: Oracles): (k: Option<nat>)
    ensures k.Some? ==> k.value < |cands| && Outcome(cands[k.value], o).Answered?
    decreases |cands|
  {
    if |cands| == 0 then None
    else if Outcome(cands[0], o).Answered? then Some(0)
    else match FirstAnswer(cands[1..], o)
      case None => None
      case Some(k) => Some(k + 1)
  }

  /** No candidate before the first answer answers, and without one no candidate answers at all. */
  lemma {:induction false} FirstAnswerIsFirst(cands: seq<Provider>, o: Oracles)
    ensures match FirstAnswer(cands, o)
      case Some(k) => forall j :: 0 <= j < k ==> !Outcome(cands[j], o).Answered?
      case None => forall j :: 0 <= j < |cands| ==> !Outcome(cands[j], o).Answered?
    decreases |cands|
  {
    if |cands| > 0 && !Outcome(cands[0], o).Answered? {
      FirstAnswerIsFirst(cands[1..], o);
      assert forall j :: 1 <= j < |cands| ==> cands[j] == cands[1..][j - 1];
    }
  }

  /** What an attempt leaves behind: its failure, or nothing for a skip or an answer. */
  function AttemptFailures(p: Provider, o: Oracles): (fs: seq<FailedAttempt>)
    ensures |fs| <= 1
    ensures |fs| == 1 <==> Outcome(p, o).Failed?
    ensures |fs| == 1 ==> fs[0].provider == p && Outcome(p, o) == Failed(fs[0].message)
  {
    match Outcome(p, o)
    case Failed(m) => [FailedAttempt(p, m)]
    case _ => []
  }

  /** The failed attempts among `cands`, in order; skips leave none. */
  function Failures(cands: seq<Provider>, o: Oracles): seq<FailedAttempt>
    decreases |cands|
  {
    if |cands| == 0 then [] else AttemptFailures(cands[0], o) + Failures(cands[1..], o)
  }

  /** The message of the last failed attempt among `cands`. */
  function LastFailure(cands: seq<Provider>, o: Oracles): Option<string>
    decreases |cands|
  {
    if |cands| == 0 then None
    else
      match LastFailure(cands[1..], o)
      case Some(m) => Some(m)
      case None => if Outcome(cands[0], o).Failed? then Some(Outcome(cands[0], o).message) else None
  }

  /** The traces of the attempts on `cands`, one after another. */
  function Traces(cands: seq<Provider>, o: Oracles, tokensIn: nat): seq<Event>
    decreases |cands|
  {
    if |cands| == 0 then [] else Trace(cands[0], o, tokensIn) + Traces(cands[1..], o, tokensIn)
  }

  /** The walk records failures and makes calls only for the candidates it is given. */
  lemma {:induction false} WalkStaysWithinCandidates(cands: seq<Provider>, o: Oracles, tokensIn: nat)
    ensures var w := WalkCandidates(cands, o, tokensIn);
      && (forall f :: f in w.failures ==> f.provider in cands)
      && (forall e :: e in w.events ==> e.provider in cands)
    decreases |cands|
  {
    if |cands| > 0 {
      if Outcome(cands[0], o).Answered? {
        WalkEventsStep(cands, o, tokensIn);
      } else {
        WalkPassStep(cands, o, tokensIn);
        WalkStaysWithinCandidates(cands[1..], o, tokensIn);
        var w := WalkCandidates(cands, o, tokensIn);
        var rest := WalkCandidates(cands[1..], o, tokensIn);
        forall f | f in w.failures ensures f.provider in cands {
          if f !in rest.failures {
            assert f in AttemptFailures(cands[0], o);
          }
        }
        forall e | e in w.events ensures e.provider in cands {
          if e !in rest.events {
            TraceShape(cands[0], o, tokensIn);
          }
        }
      }
    }
  }

  /** How the walk over `cands` continues past a first candidate that does not answer. */
  lemma WalkPassStep(cands: seq<Provider>, o: Oracles, tokensIn: nat)
    requires |cands| > 0 && !Outcome(cands[0], o).Answered?
    ensures var w := WalkCandidates(cands, o, tokensIn);
      var rest := WalkCandidates(cands[1..], o, tokensIn);
      && w.events == Trace(cands[0], o, tokensIn) + rest.events
      && w.failures == AttemptFailures(cands[0], o) + rest.failures
      && (w.Won? <==> rest.Won?)
      && (w.Won? ==> w.provider == rest.provider && w.content == rest.content)
      && (w.Exhausted? ==>
            w.lastError == (if rest.lastError.Some? then rest.lastError
                            else if Outcome(cands[0], o).Failed? then Some(Outcome(cands[0], o).message)
                            else None))
  {
    WalkStep(cands, o, tokensIn);
  }

  /** The first answer among `cands` when the first candidate does not answer: one position later than in the tail. */
  lemma FirstAnswerStep(cands: seq<Provider>, o: Oracles)
    requires |cands| > 0 && !Outcome(cands[0], o).Answered?
    ensures FirstAnswer(cands, o).None? <==> FirstAnswer(cands[1..], o).None?
    ensures FirstAnswer(cands, o).Some? ==> FirstAnswer(cands, o).value == FirstAnswer(cands[1..], o).value + 1
  {
  }

  /** The walk is won exactly when some candidate answers, and then by the first one. */
  lemma {:induction false} WalkWinner(cands: seq<Provider>, o: Oracles, tokensIn: nat)
    ensures var w := WalkCandidates(cands, o, tokensIn);
      match FirstAnswer(cands, o)
      case Some(k) => w.Won? && w.provider == cands[k] && Outcome(cands[k], o) == Answered(w.content)
      case None => w.Exhausted?
    decreases |cands|
  {
    if |cands| > 0 {
      if Outcome(cands[0], o).Answered? {
        WalkEventsStep(cands, o, tokensIn);
        assert FirstAnswer(cands, o) == Some(0);
      } else {
        WalkPassStep(cands, o, tokensIn);
        FirstAnswerStep(cands, o);
        WalkWinner(cands[1..], o, tokensIn);
      }
    }
  }

  /** The number of candidates attempted without an answer: those before the first answer, or all. */
  function Passed(cands: seq<Provider>, o: Oracles): (n: nat)
    ensures n <= |cands|
  {
    match FirstAnswer(cands, o)
    case Some(k) => k
    case None => |cands|
  }

  /** The number of candidates attempted at all: the passed ones and the winner, if any. */
  function Reached(cands: seq<Provider>, o: Oracles): (n: nat)
    ensures n <= |cands|
    ensures n == Passed(cands, o) + (if FirstAnswer(cands, o).Some? then 1 else 0)
  {
    match FirstAnswer(cands, o)
    case Some(k) => k + 1
    case None => |cands|
  }

  lemma FailuresCons(p: Provider, cands: seq<Provider>, o: Oracles)
    ensures Failures([p] + cands, o) == AttemptFailures(p, o) + Failures(cands, o)
  {
    assert ([p] + cands)[1..] == cands;
  }

  lemma TracesCons(p: Provider, cands: seq<Provider>, o: Oracles, tokensIn: nat)
    ensures Traces([p] + cands, o, tokensIn) == Trace(p, o, tokensIn) + Traces(cands, o, tokensIn)
  {
    assert ([p] + cands)[1..] == cands;
  }

  /** The first `n + 1` candidates are the first one followed by the first `n` of the tail. */
  lemma PrefixCons(cands: seq<Provider>, n: nat)
    requires n < |cands|
    ensures cands[..n + 1] == [cands[0]] + cands[1..][..n]
  {
  }

  /** The walk's failures are the failed attempts before the first answer, in attempt order. */
  lemma {:induction false} WalkErrors(cands: seq<Provider>, o: Oracles, tokensIn: nat)
    ensures WalkCandidates(cands, o, tokensIn).failures == Failures(cands[..Passed(cands, o)], o)
    decreases |cands|
  {
    if |cands| > 0 {
      if Outcome(cands[0], o).Answered? {
        WalkEventsStep(cands, o, tokensIn);
        assert FirstAnswer(cands, o) == Some(0);
      } else {
        var n := Passed(cands[1..], o);
        WalkPassStep(cands, o, tokensIn);
        FirstAnswerStep(cands, o);
        WalkErrors(cands[1..], o, tokensIn);
        assert Passed(cands, o) == n + 1;
        PrefixCons(cands, n);
        FailuresCons(cands[0], cands[1..][..n], o);
      }
    }
  }

  /** The walk's collaborator calls are those of the attempts up to and including the winner, and no more. */
  lemma {:induction false} WalkEvents(cands: seq<Provider>, o: Oracles, tokensIn: nat)
    ensures WalkCandidates(cands, o, tokensIn).events == Traces(cands[..Reached(cands, o)], o, tokensIn)
    decreases |cands|
  {
    if |cands| > 0 {
      if Outcome(cands[0], o).Answered? {
        WalkEventsStep(cands, o, tokensIn);
        assert FirstAnswer(cands, o) == Some(0);
        TracesCons(cands[0], [], o, tokensIn);
        assert cands[..1] == [cands[0]] + [];
      } else {
        var n := Reached(cands[1..], o);
        WalkPassStep(cands, o, tokensIn);
        FirstAnswerStep(cands, o);
        WalkEvents(cands[1..], o, tokensIn);
        assert Reached(cands, o) == n + 1;
        PrefixCons(cands, n);
        TracesCons(cands[0], cands[1..][..n], o, tokensIn);
      }
    }
  }

  /** Without an answer, the walk keeps the message of the last failed attempt. */
  lemma {:induction false} WalkLastError(cands: seq<Provider>, o: Oracles, tokensIn: nat)
    requires FirstAnswer(cands, o).None?
    ensures WalkCandidates(cands, o, tokensIn).Exhausted?
    ensures WalkCandidates(cands, o, tokensIn).lastError == LastFailure(cands, o)
    decreases |cands|
  {
    WalkWinner(cands, o, tokensIn);
    if |cands| > 0 {
      WalkPassStep(cands, o, tokensIn);
      FirstAnswerStep(cands, o);
      WalkLastError(cands[1..], o, tokensIn);
    }
  }

  /**
   * The usage calls of a walk: each belongs to a responding attempt and
   * carries its token total. When the walk was won the last one is the
   * winner's, and every other one threw.
   */
  predicate UsageOfWalk(w: Walk, o: Oracles, tokensIn: nat) {
    var us := Usages(w.events);
    && (forall e :: e in us ==> Responds(e.provider, o) && e == UsageOf(e.provider, o, tokensIn))
    && (w.Won? ==> |us| > 0 && us[|us| - 1] == UsageRecorded(w.provider, tokensIn + CeilDiv4(Utf16Length(w.content))))
    && (forall i :: 0 <= i < |us| - (if w.Won? then 1 else 0) ==> o.usage(us[i].provider).UsageThrew?)
  }

  /**
   * Minute usage is recorded for every attempt whose provider answered. Such
   * an attempt is the winner unless the recording threw, so the winner's is
   * the last record and all others threw.
   */
  lemma {:induction false} WalkUsages(cands: seq<Provider>, o: Oracles, tokensIn: nat)
    ensures UsageOfWalk(WalkCandidates(cands, o, tokensIn), o, tokensIn)
    decreases |cands|
  {
    var w := WalkCandidates(cands, o, tokensIn);
    if |cands| == 0 {
      assert w == Exhausted([], None, []);
      assert Usages([]) == [];
    } else {
      var trace := Trace(cands[0], o, tokensIn);
      TraceUsages(cands[0], o, tokensIn);
      WalkEventsStep(cands, o, tokensIn);
      if Outcome(cands[0], o).Answered? {
        var c := Outcome(cands[0], o).content;
        assert w == Won(cands[0], c, [], trace);
        assert Usages(trace) == [UsageRecorded(cands[0], tokensIn + CeilDiv4(Utf16Length(c)))];
      } else {
        var rest := WalkCandidates(cands[1..], o, tokensIn);
        WalkUsages(cands[1..], o, tokensIn);
        UsagesAppend(trace, rest.events);
        UsagesPass(w, rest, Usages(trace), o, tokensIn);
      }
    }
  }

  /** A walk that passes a first attempt whose only possible usage threw keeps the usage shape of the rest of the walk. */
  lemma UsagesPass(w: Walk, rest: Walk, first: seq<Event>, o: Oracles, tokensIn: nat)
    requires Usages(w.events) == first + Usages(rest.events)
    requires forall e :: e in first ==> Responds(e.provider, o) && e == UsageOf(e.provider, o, tokensIn)
    requires forall i :: 0 <= i < |first| ==> o.usage(first[i].provider).UsageThrew?
    requires UsageOfWalk(rest, o, tokensIn)
    requires (w.Won? <==> rest.Won?) && (w.Won? ==> w.provider == rest.provider && w.content == rest.content)
    ensures UsageOfWalk(w, o, tokensIn)
  {
    var us, ru := Usages(w.events), Usages(rest.events);
    assert forall i :: |first| <= i < |us| ==> us[i] == ru[i - |first|];
    if w.Won? {
      assert us[|us| - 1] == ru[|ru| - 1];
    }
  }

  /**
   * The walk stops at the first candidate that answers. Its failures are the
   * failed attempts before that point, in attempt order, and skipped
   * candidates leave none. Its collaborator calls are exactly those of
   * the attempts up to and including the winner, so no later candidate is
   * touched. Without an answer every candidate is attempted.
   */
  lemma WalkMatchesReference(cands: seq<Provider>, o: Oracles, tokensIn: nat)
    ensures var w := WalkCandidates(cands, o, tokensIn);
      match FirstAnswer(cands, o)
      case Some(k) =>
        && w.Won? && w.provider == cands[k] && Outcome(cands[k], o) == Answered(w.content)
        && w.failures == Failures(cands[..k], o)
        && w.events == Traces(cands[..k + 1], o, tokensIn)
      case None =>
        && w.Exhausted?
        && w.failures == Failures(cands, o)
        && w.lastError == LastFailure(cands, o)
        && w.events == Traces(cands, o, tokensIn)
  {
    WalkWinner(cands, o, tokensIn);
    WalkErrors(cands, o, tokensIn);
    WalkEvents(cands, o, tokensIn);
    if FirstAnswer(cands, o).None? {
      WalkLastError(cands, o, tokensIn);
      assert cands[..|cands|] == cands;
    }
  }

  /** Every failed attempt is kept among the failures. */
  lemma {:induction false} FailedAttemptRecorded(cands: seq<Provider>, o: Oracles, j: nat)
    requires j < |cands| && Outcome(cands[j], o).Failed?
    ensures FailedAttempt(cands[j], Outcome(cands[j], o).message) in Failures(cands, o)
    decreases j
  {
    if j > 0 {
      FailedAttemptRecorded(cands[1..], o, j - 1);
    }
  }

  // ---------------------------------------------------------------------------
  // generateChatResponse
  // ---------------------------------------------------------------------------

  datatype ChatResponse = ChatResponse(
    response: string,
    tokensIn: nat,
    tokensOut: nat,
    provider: Provider,
    errors: seq<ProviderError>)

  /** The call's result (a response or the thrown error's message) and the collaborator calls it made. */
  datatype Dispatch = Dispatch(result: Result<ChatResponse, string>, events: seq<Event>)

  const NoProvidersMessage: string := "No LLM providers are configured"
  const AllFailedPrefix: string := "All providers failed. Last error: "

  /** `lastError?.message || 'Unknown error'`: an empty message counts as none. */
  function LastErrorText(last: Option<string>): string {
    if last.Some? && last.value != "" then last.value else "Unknown error"
  }

  /** `generateChatResponse(message, conversationHistory, activeProvider, fallbackOrder)`. */
  function GenerateChatResponse(
    systemPrompt: string, message: string, history: seq<HistoryTurn>,
    active: Provider, fallback: seq<Provider>, o: Oracles): (d: Dispatch)
    ensures d.result.Failure? && d.result.error != NoProvidersMessage ==> AllFailedPrefix <= d.result.error
    ensures d.result.Success? ==>
      var r := d.result.value;
      && r.provider in ProviderOrder(active, fallback) && o.available(r.provider)
      && o.invoke(r.provider) == Responded(r.response) && o.usage(r.provider) == UsageStored
      && r.tokensIn == CeilDiv4(TotalChars(BuildMessages(systemPrompt, history, message)))
      && r.tokensOut == CeilDiv4(Utf16Length(r.response))
  {
    var msgs := BuildMessages(systemPrompt, history, message);
    var cands := Candidates(active, fallback, o.available);
    if |cands| == 0 then
      Dispatch(Failure(NoProvidersMessage), [])
    else
      var tokensIn := CeilDiv4(TotalChars(msgs));
      Conclude(WalkCandidates(cands, o, tokensIn), tokensIn)
  }

  /** The return of lines 268-274 for a walk that won, or the throw of line 315 for one that was exhausted. */
  function Conclude(w: Walk, tokensIn: nat): (d: Dispatch)
    ensures d.events == w.events
    ensures d.result.Success? <==> w.Won?
    ensures d.result.Success? ==> d.result.value == ChatResponse(w.content, tokensIn, CeilDiv4(Utf16Length(w.content)), w.provider, Records(w.failures))
    ensures d.result.Failure? ==> d.result.error == AllFailedPrefix + LastErrorText(w.lastError)
    ensures d.result.Failure? ==> AllFailedPrefix <= d.result.error && d.result.error != NoProvidersMessage
  {
    if w.Won? then
      Dispatch(Success(ChatResponse(w.content, tokensIn, CeilDiv4(Utf16Length(w.content)), w.provider, Records(w.failures))), w.events)
    else
      assert AllFailedPrefix[0] != NoProvidersMessage[0];
      assert AllFailedPrefix <= AllFailedPrefix + LastErrorText(w.lastError);
      Dispatch(Failure(AllFailedPrefix + LastErrorText(w.lastError)), w.events)
  }

  /**
   * Every minute-usage record of a call belongs to a configured provider
   * that answered, and carries that attempt's token total. On success the
   * last record is the returned provider's, with `tokensIn + tokensOut`.
   * Every other record is one whose recording threw, which turned that
   * answer into a failure.
   */
  lemma UsageRecords(
    systemPrompt: string, message: string, history: seq<HistoryTurn>,
    active: Provider, fallback: seq<Provider>, o: Oracles)
    ensures var d := GenerateChatResponse(systemPrompt, message, history, active, fallback, o);
      var tokensIn := CeilDiv4(TotalChars(BuildMessages(systemPrompt, history, message)));
      var us := Usages(d.events);
      && (forall e :: e in us ==>
            e.provider in ProviderOrder(active, fallback) && o.available(e.provider)
            && Responds(e.provider, o) && e == UsageOf(e.provider, o, tokensIn))
      && (d.result.Success? ==>
            |us| > 0 && us[|us| - 1] == UsageRecorded(d.result.value.provider, d.result.value.tokensIn + d.result.value.tokensOut))
      && (forall i :: 0 <= i < |us| - (if d.result.Success? then 1 else 0) ==> o.usage(us[i].provider).UsageThrew?)
  {
    var cands := Candidates(active, fallback, o.available);
    var d := GenerateChatResponse(systemPrompt, message, history, active, fallback, o);
    if |cands| > 0 {
      var tokensIn := CeilDiv4(TotalChars(BuildMessages(systemPrompt, history, message)));
      var w := WalkCandidates(cands, o, tokensIn);
      WalkUsages(cands, o, tokensIn);
      WalkStaysWithinCandidates(cands, o, tokensIn);
      assert d == Conclude(w, tokensIn);
      ConcludeUsages(w, o, tokensIn);
      forall e | e in Usages(d.events)
        ensures e.provider in ProviderOrder(active, fallback) && o.available(e.provider)
      {
        UsagesAreEvents(d.events, e);
      }
    } else {
      assert Usages([]) == [];
    }
  }

  /** The usage records of a walk are those of the call it concludes, the winner's last. */
  lemma ConcludeUsages(w: Walk, o: Oracles, tokensIn: nat)
    requires UsageOfWalk(w, o, tokensIn)
    ensures var d := Conclude(w, tokensIn);
      var us := Usages(d.events);
      && (forall e :: e in us ==> Responds(e.provider, o) && e == UsageOf(e.provider, o, tokensIn))
      && (d.result.Success? ==>
            |us| > 0 && us[|us| - 1] == UsageRecorded(d.result.value.provider, d.result.value.tokensIn + d.result.value.tokensOut))
      && (forall i :: 0 <= i < |us| - (if d.result.Success? then 1 else 0) ==> o.usage(us[i].provider).UsageThrew?)
  {
  }

  lemma {:induction false} UsagesAreEvents(evs: seq<Event>, e: Event)
    requires e in Usages(evs)
    ensures e in evs
    decreases |evs|
  {
    if !(evs[0].UsageRecorded? && e == evs[0]) {
      UsagesAreEvents(evs[1..], e);
    }
  }

  /**
   * When `recordMinuteUsage` never throws, a call records minute usage
   * exactly once, for the answering provider, and not at all when it fails.
   */
  lemma UsageRecordedOnce(
    systemPrompt: string, message: string, history: seq<HistoryTurn>,
    active: Provider, fallback: seq<Provider>, o: Oracles)
    requires forall p :: o.usage(p) == UsageStored
    ensures var d := GenerateChatResponse(systemPrompt, message, history, active, fallback, o);
      Usages(d.events) ==
        if d.result.Success? then
          [UsageRecorded(d.result.value.provider, d.result.value.tokensIn + d.result.value.tokensOut)]
        else []
  {
    var d := GenerateChatResponse(systemPrompt, message, history, active, fallback, o);
    UsageRecords(systemPrompt, message, history, active, fallback, o);
    var us := Usages(d.events);
    var stored := if d.result.Success? then 1 else 0;
    if |us| > 0 {
      assert o.usage(us[0].provider) == UsageStored;
    }
  }

  /**
   * The call touches only configured providers of the attempt order, and
   * every error record it returns names one of them and holds at most 500
   * characters of the message.
   */
  lemma StaysWithinOrder(
    systemPrompt: string, message: string, history: seq<HistoryTurn>,
    active: Provider, fallback: seq<Provider>, o: Oracles)
    ensures var d := GenerateChatResponse(systemPrompt, message, history, active, fallback, o);
      && (forall e :: e in d.events ==> e.provider in ProviderOrder(active, fallback) && o.available(e.provider))
      && (d.result.Success? ==>
            forall e :: e in d.result.value.errors ==>
              e.provider in ProviderOrder(active, fallback) && |e.error| <= MaxErrorLength)
  {
    var cands := Candidates(active, fallback, o.available);
    if |cands| > 0 {
      var tokensIn := CeilDiv4(TotalChars(BuildMessages(systemPrompt, history, message)));
      var w := WalkCandidates(cands, o, tokensIn);
      WalkStaysWithinCandidates(cands, o, tokensIn);
      forall e | e in Records(w.failures)
        ensures e.provider in cands && |e.error| <= MaxErrorLength
      {
        var i :| 0 <= i < |w.failures| && Records(w.failures)[i] == e;
        assert w.failures[i] in w.failures;
      }
    }
  }

  /** With no configured provider the call fails at once, before any quota check or invocation. */
  lemma NoProvidersFailsFast(
    systemPrompt: string, message: string, history: seq<HistoryTurn>,
    active: Provider, fallback: seq<Provider>, o: Oracles)
    ensures GenerateChatResponse(systemPrompt, message, history, active, fallback, o)
      == Dispatch(Failure(NoProvidersMessage), [])
      <==> forall p :: p in ProviderOrder(active, fallback) ==> !o.available(p)
  {
    FilterAvailableEmpty(ProviderOrder(active, fallback), o.available);
  }

  /** A provider is invoked only when configured and allowed by both the minute limit and the daily quota. */
  lemma InvokedOnlyWhenAllowed(
    systemPrompt: string, message: string, history: seq<HistoryTurn>,
    active: Provider, fallback: seq<Provider>, o: Oracles, p: Provider)
    requires Invoked(p) in GenerateChatResponse(systemPrompt, message, history, active, fallback, o).events
    ensures o.available(p) && o.minute(p) == MinuteAllowed && o.quota(p) == QuotaAvailable
  {
    var cands := Candidates(active, fallback, o.available);
    var t := CeilDiv4(TotalChars(BuildMessages(systemPrompt, history, message)));
    var d := GenerateChatResponse(systemPrompt, message, history, active, fallback, o);
    if |cands| > 0 {
      var w := WalkCandidates(cands, o, t);
      assert d.events == w.events;
      WalkMatchesReference(cands, o, t);
      match FirstAnswer(cands, o)
      case Some(k) =>
        InvokedInTraces(cands[..k + 1], o, t, p);
        assert p in cands;
      case None =>
        InvokedInTraces(cands, o, t, p);
    }
  }

  lemma {:induction false} InvokedInTraces(cands: seq<Provider>, o: Oracles, tokensIn: nat, p: Provider)
    requires Invoked(p) in Traces(cands, o, tokensIn)
    ensures p in cands && o.minute(p) == MinuteAllowed && o.quota(p) == QuotaAvailable
    decreases |cands|
  {
    TraceInvoked(cands[0], o, tokensIn);
    if Invoked(p) !in Trace(cands[0], o, tokensIn) {
      InvokedInTraces(cands[1..], o, tokensIn, p);
    }
  }

  /** Every kept failure belongs to an attempt that failed with that message: a skipped candidate never leaves one. */
  lemma {:induction false} FailuresAreFailedAttempts(cands: seq<Provider>, o: Oracles, f: FailedAttempt)
    requires f in Failures(cands, o)
    ensures f.provider in cands && Outcome(f.provider, o) == Failed(f.message)
    decreases |cands|
  {
    if f !in AttemptFailures(cands[0], o) {
      FailuresAreFailedAttempts(cands[1..], o, f);
    }
  }

  /** When every candidate is exhausted, the message names the last failure, or `Unknown error` when all were skipped. */
  lemma ExhaustedMessage(
    systemPrompt: string, message: string, history: seq<HistoryTurn>,
    active: Provider, fallback: seq<Provider>, o: Oracles)
    requires var cands := Candidates(active, fallback, o.available);
      |cands| > 0 && forall j :: 0 <= j < |cands| ==> !Outcome(cands[j], o).Answered?
    ensures GenerateChatResponse(systemPrompt, message, history, active, fallback, o).result
      == Failure(AllFailedPrefix + LastErrorText(LastFailure(Candidates(active, fallback, o.available), o)))
  {
    var cands := Candidates(active, fallback, o.available);
    var t := CeilDiv4(TotalChars(BuildMessages(systemPrompt, history, message)));
    WalkMatchesReference(cands, o, t);
  }

  lemma {:induction false} LastFailureNoneWhenAllSkipped(cands: seq<Provider>, o: Oracles)
    requires forall j :: 0 <= j < |cands| ==> Outcome(cands[j], o) == Skipped
    ensures LastFailure(cands, o) == None
    decreases |cands|
  {
    if |cands| > 0 {
      LastFailureNoneWhenAllSkipped(cands[1..], o);
    }
  }

  /** When every candidate is skipped, nothing is invoked, nothing is recorded and the message says `Unknown error`. */
  lemma AllSkipped(
    systemPrompt: string, message: string, history: seq<HistoryTurn>,
    active: Provider, fallback: seq<Provider>, o: Oracles)
    requires var cands := Candidates(active, fallback, o.available);
      |cands| > 0 && forall j :: 0 <= j < |cands| ==> Outcome(cands[j], o) == Skipped
    ensures GenerateChatResponse(systemPrompt, message, history, active, fallback, o).result
      == Failure(AllFailedPrefix + "Unknown error")
  {
    var cands := Candidates(active, fallback, o.available);
    ExhaustedMessage(systemPrompt, message, history, active, fallback, o);
    LastFailureNoneWhenAllSkipped(cands, o);
  }

  // ---------------------------------------------------------------------------
  // Worked scenarios
  // ---------------------------------------------------------------------------

  lemma OrderOfThree(a: Provider, b: Provider, c: Provider)
    requires a != b && a != c && b != c
    ensures ProviderOrder(a, [b, c]) == [a, b, c]
  {
    var ab, abc := [a] + [b], [a, b] + [c];
    assert ab == [a, b] && abc == [a, b, c];
    assert [b, c][0] == b && [b, c][1..] == [c] && [c][0] == c && [c][1..] == [];
    AppendNewStep([a], [b, c]);
    AppendNewStep(ab, [c]);
  }

  lemma AppendNewStep(acc: seq<Provider>, rest: seq<Provider>)
    requires |rest| > 0 && rest[0] !in acc
    ensures AppendNew(acc, rest) == AppendNew(acc + [rest[0]], rest[1..])
  {
  }

  lemma FilterOfThree(a: Provider, b: Provider, c: Provider, available: Provider -> bool)
    requires available(a) && available(b) && available(c)
    ensures FilterAvailable([a, b, c], available) == [a, b, c]
  {
    var abc := [a, b, c];
    assert abc[1..] == [b, c] && abc[1..][1..] == [c] && abc[1..][1..][1..] == [];
    assert FilterAvailable([c], available) == [c];
    assert FilterAvailable([b, c], available) == [b] + [c];
  }

  /** Three distinct providers, all configured, are tried in the order given. */
  lemma CandidatesOfThree(a: Provider, b: Provider, c: Provider, o: Oracles)
    requires a != b && a != c && b != c
    requires o.available(a) && o.available(b) && o.available(c)
    ensures Candidates(a, [b, c], o.available) == [a, b, c]
  {
    OrderOfThree(a, b, c);
    FilterOfThree(a, b, c, o.available);
  }

  /**
   * The first provider is over its minute limit, the second times out and
   * the third answers: the answer comes from the third and the only error
   * record is the second's timeout, because a skip records nothing.
   */
  lemma FallbackScenario(
    systemPrompt: string, message: string, history: seq<HistoryTurn>,
    a: Provider, b: Provider, c: Provider, o: Oracles)
    requires a != b && a != c && b != c
    requires o.available(a) && o.available(b) && o.available(c)
    requires o.minute(a) == MinuteDenied
    requires o.minute(b) == MinuteAllowed && o.quota(b) == QuotaAvailable && o.invoke(b) == TimedOut
    requires o.minute(c) == MinuteAllowed && o.quota(c) == QuotaAvailable && o.invoke(c).Responded?
    requires o.usage(c) == UsageStored
    ensures var r := GenerateChatResponse(systemPrompt, message, history, a, [b, c], o).result;
      && r.Success? && r.value.provider == c && r.value.response == o.invoke(c).content
      && |r.value.errors| == 1 && r.value.errors[0].provider == b && r.value.errors[0].errorType == Timeout
  {
    CandidatesOfThree(a, b, c, o);
    var cands := [a, b, c];
    var t := CeilDiv4(TotalChars(BuildMessages(systemPrompt, history, message)));
    WalkStep(cands, o, t);
    WalkStep(cands[1..], o, t);
    WalkStep(cands[2..], o, t);
    var w := WalkCandidates(cands, o, t);
    assert w.failures == [FailedAttempt(b, TimeoutMessage(b))];
    TimeoutMessageIsTimeout(b);
  }

  /** Two distinct configured providers are tried in the order given. */
  lemma CandidatesOfTwo(a: Provider, b: Provider, o: Oracles)
    requires a != b && o.available(a) && o.available(b)
    ensures Candidates(a, [b], o.available) == [a, b]
  {
    assert [b][0] == b && [b][1..] == [];
    AppendNewStep([a], [b]);
    assert [a] + [b] == [a, b];
    var ab := [a, b];
    assert ab[1..] == [b] && ab[1..][1..] == [];
    assert FilterAvailable([b], o.available) == [b];
  }

  /**
   * The first provider answers but recording its minute usage throws, and
   * the second answers: the answer comes from the second, the first answer
   * is dropped with an error record carrying the thrown message, and both
   * usages were recorded.
   */
  lemma UsageThrowFallsThrough(
    systemPrompt: string, message: string, history: seq<HistoryTurn>,
    a: Provider, b: Provider, o: Oracles)
    requires a != b && o.available(a) && o.available(b)
    requires Responds(a, o) && o.usage(a).UsageThrew?
    requires Responds(b, o) && o.usage(b) == UsageStored
    ensures var d := GenerateChatResponse(systemPrompt, message, history, a, [b], o);
      var t := CeilDiv4(TotalChars(BuildMessages(systemPrompt, history, message)));
      && d.result.Success? && d.result.value.provider == b && d.result.value.response == o.invoke(b).content
      && d.result.value.errors == [RecordError(a, o.usage(a).message)]
      && Usages(d.events) == [UsageOf(a, o, t), UsageOf(b, o, t)]
  {
    CandidatesOfTwo(a, b, o);
    var cands := [a, b];
    var t := CeilDiv4(TotalChars(BuildMessages(systemPrompt, history, message)));
    WalkStep(cands, o, t);
    WalkStep(cands[1..], o, t);
    var w := WalkCandidates(cands, o, t);
    assert w.failures == [FailedAttempt(a, o.usage(a).message)];
    var ta, tb := Trace(a, o, t), Trace(b, o, t);
    assert w.events == ta + tb;
    TraceUsages(a, o, t);
    TraceUsages(b, o, t);
    UsagesAppend(ta, tb);
  }

  /** An answer of three emoji is six code units long, so it is estimated at two tokens. */
  lemma AstralTokensOut()
    ensures CeilDiv4(Utf16Length("\U{1F600}\U{1F600}\U{1F600}")) == 2
  {
    Utf16LengthAstral("\U{1F600}\U{1F600}\U{1F600}");
  }

  /** `p` is configured and allowed, and its invocation throws a message classified as a rate limit. */
  predicate FailsRateLimited(o: Oracles, p: Provider) {
    && o.available(p) && o.minute(p) == MinuteAllowed && o.quota(p) == QuotaAvailable
    && o.invoke(p).InvokeThrew? && Classify(o.invoke(p).message) == RateLimit
  }

  /**
   * When every attempt fails, the walk is exhausted with one record per
   * candidate, in attempt order, and keeps the last candidate's message.
   */
  lemma {:induction false} AllFailedWalk(cands: seq<Provider>, o: Oracles, t: nat)
    requires |cands| > 0
    requires forall j :: 0 <= j < |cands| ==> Outcome(cands[j], o).Failed?
    ensures var w := WalkCandidates(cands, o, t);
      && w.Exhausted? && |w.failures| == |cands|
      && (forall j :: 0 <= j < |cands| ==> w.failures[j] == FailedAttempt(cands[j], Outcome(cands[j], o).message))
      && w.lastError == Some(Outcome(cands[|cands| - 1], o).message)
    decreases |cands|
  {
    WalkStep(cands, o, t);
    if |cands| == 1 {
      assert WalkCandidates(cands[1..], o, t) == Exhausted([], None, []);
    } else {
      AllFailedWalk(cands[1..], o, t);
      var w := WalkCandidates(cands, o, t);
      var rest := WalkCandidates(cands[1..], o, t);
      forall j | 0 <= j < |cands|
        ensures w.failures[j] == FailedAttempt(cands[j], Outcome(cands[j], o).message)
      {
        if j > 0 {
          assert w.failures[j] == rest.failures[j - 1];
        }
      }
    }
  }

  /** Three rate-limited failures in a row exhaust the walk with three rate-limit failures, the last message kept. */
  lemma AllRateLimitedWalk(a: Provider, b: Provider, c: Provider, o: Oracles, t: nat)
    requires FailsRateLimited(o, a) && FailsRateLimited(o, b) && FailsRateLimited(o, c)
    ensures var w := WalkCandidates([a, b, c], o, t);
      && w.Exhausted? && |w.failures| == 3
      && (forall i :: 0 <= i < 3 ==> Classify(w.failures[i].message) == RateLimit)
      && w.lastError == Some(o.invoke(c).message)
  {
    var cands := [a, b, c];
    assert Outcome(a, o) == Failed(o.invoke(a).message);
    assert Outcome(b, o) == Failed(o.invoke(b).message);
    assert Outcome(c, o) == Failed(o.invoke(c).message);
    AllFailedWalk(cands, o, t);
  }

  /**
   * Three distinct providers all fail with a rate-limit error: the call
   * fails with the last provider's message after recording three
   * rate-limit errors.
   */
  lemma AllRateLimitedScenario(
    systemPrompt: string, message: string, history: seq<HistoryTurn>,
    a: Provider, b: Provider, c: Provider, o: Oracles)
    requires a != b && a != c && b != c
    requires FailsRateLimited(o, a) && FailsRateLimited(o, b) && FailsRateLimited(o, c)
    requires o.invoke(c).message != ""
    ensures GenerateChatResponse(systemPrompt, message, history, a, [b, c], o).result
      == Failure(AllFailedPrefix + o.invoke(c).message)
  {
    CandidatesOfThree(a, b, c, o);
    AllRateLimitedWalk(a, b, c, o, CeilDiv4(TotalChars(BuildMessages(systemPrompt, history, message))));
  }
}
