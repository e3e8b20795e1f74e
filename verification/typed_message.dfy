/**
 * The word-by-word reveal of an assistant reply (`TypedMessage`, written
 * twice with the same body, in components/Hero/ChatModal.tsx and
 * components/ChatWidget/MiniChat.tsx). The reply is cut at every space; a
 * timer reveals one more word at a time and, once every word is on screen,
 * the completion callback runs. The 30 ms delay is not modelled: a tick is
 * one firing of the timer.
 */
module TypedMessage {
  import opened Text
  import opened Seqs

  const Space: string := " "

  /** `content.split(' ')`: at least one word, and joining the words with spaces gives the reply back. */
  function Words(content: string): (ws: seq<string>)
    ensures |ws| >= 1
    ensures Join(ws, Space) == content
  {
    JoinSplit(content, Space);
    Split(content, Space)
  }

  /** `words.slice(0, shown).join(' ')`: the text on screen once `shown` words are revealed, always a prefix of the reply. */
  function Displayed(content: string, shown: nat): (text: string)
    ensures text <= content
  {
    var ws := Words(content);
    var k := Min(|ws|, shown);
    assert Take(ws, shown) == ws[..k];
    JoinPrefix(ws, Space, k);
    Join(Take(ws, shown), Space)
  }

  /**
   * Once every word is revealed the whole reply is on screen, and, unless the
   * reply is empty (one empty word), not a moment earlier.
   */
  lemma DisplayedWholeIff(content: string, shown: nat)
    ensures Displayed(content, shown) == content <==> shown >= |Words(content)| || content == ""
  {
    var ws := Words(content);
    if shown >= |ws| {
      assert Take(ws, shown) == ws;
    } else if shown >= 1 {
      JoinAppend(ws, Space, shown);
      assert Take(ws, shown) == ws[..shown];
    } else {
      assert Displayed(content, shown) == "";
      if |ws| >= 2 {
        JoinLength(ws, Space);
      }
    }
  }

  /** A join of at least two pieces is at least as long as the separator. */
  lemma {:induction false} JoinLength(parts: seq<string>, sep: string)
    requires |parts| >= 2
    ensures |Join(parts, sep)| >= |sep|
    decreases |parts|
  {
  }

  /** Each tick shows what the previous one showed and possibly one more word. */
  lemma DisplayedGrows(content: string, shown: nat)
    ensures Displayed(content, shown) <= Displayed(content, shown + 1)
  {
    var ws := Words(content);
    if shown < |ws| {
      var next := ws[..shown + 1];
      assert Take(ws, shown + 1) == next;
      assert Take(ws, shown) == next[..shown];
      JoinPrefix(next, Space, shown);
    } else {
      assert Take(ws, shown) == ws && Take(ws, shown + 1) == ws;
    }
  }

  /** The text on screen, cut at spaces again, is exactly the revealed words. */
  lemma DisplayedWords(content: string, shown: nat)
    requires shown >= 1
    ensures Split(Displayed(content, shown), Space) == Take(Words(content), shown)
  {
    var ws := Words(content);
    var t := Take(ws, shown);
    assert Space == [' '];
    forall i | 0 <= i < |t|
      ensures !Contains(t[i], [' '])
    {
      assert t[i] == ws[i];
    }
    SplitJoinChar(t, ' ');
  }

  // ---------------------------------------------------------------------------
  // The reveal effect
  // ---------------------------------------------------------------------------

  /** What one run of the effect does: schedule one more word, or call the completion callback. */
  datatype Tick = Reveal(shown: nat) | Complete

  /**
   * The effect with `shown` words on screen: completion comes only once the
   * whole reply is displayed and, for a non-empty reply, as soon as it is.
   */
  function Step(content: string, shown: nat): (t: Tick)
    ensures t.Complete? ==> Displayed(content, shown) == content
    ensures content != "" ==> (t.Complete? <==> Displayed(content, shown) == content)
    ensures t.Reveal? ==> t.shown == shown + 1
  {
    DisplayedWholeIff(content, shown);
    if shown < |Words(content)| then Reveal(shown + 1) else Complete
  }

  /** The number of words on screen after `ticks` timer firings, starting from none. */
  function ShownAfter(content: string, ticks: nat): (shown: nat)
    decreases ticks
  {
    if ticks == 0 then 0
    else
      var before := ShownAfter(content, ticks - 1);
      match Step(content, before)
      case Reveal(k) => k
      case Complete => before
  }

  /** Each firing reveals one word until all are shown, then nothing changes. */
  lemma {:induction false} ShownAfterTicks(content: string, ticks: nat)
    ensures ShownAfter(content, ticks) == Min(ticks, |Words(content)|)
    decreases ticks
  {
    if ticks > 0 {
      ShownAfterTicks(content, ticks - 1);
      DisplayedWholeIff(content, ShownAfter(content, ticks - 1));
    }
  }

  /** Starting from an empty bubble, completion is reported after exactly as many ticks as there are words. */
  lemma CompletesAfterEveryWord(content: string, ticks: nat)
    ensures Step(content, ShownAfter(content, ticks)).Complete? <==> ticks >= |Words(content)|
  {
    ShownAfterTicks(content, ticks);
    DisplayedWholeIff(content, ShownAfter(content, ticks));
  }
}
