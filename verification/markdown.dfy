/**
 * The chat-bubble markdown renderer `parseMarkdown`, identical in
 * `components/Hero/ChatModal.tsx` and `components/ChatWidget/MiniChat.tsx`.
 *
 * The source runs one global regular expression,
 *   [t](u)  |  **x**  |  __x__  |  `x`  |  *x*  |  _x_
 * with `exec` from `lastIndex`, emitting the text between matches as plain
 * spans. Its JavaScript semantics are spelled out here:
 *   - a match is searched at the leftmost position first, and at one
 *     position the alternatives are tried in the order above;
 *   - `[^c]+c` takes everything up to the first `c`, and needs at least one
 *     character before it (a negated class also matches line breaks);
 *   - `.+?d` is lazy: the shortest non-empty run ending right before the
 *     delimiter `d`, and `.` never matches a line terminator;
 *   - no alternative matches the empty string, so `lastIndex` always moves.
 */
module Markdown {
  import opened Wrappers
  import opened Text

  /** A piece of the input: plain text between matches, or one match of an alternative. */
  datatype Piece =
    | Gap(text: string)
    | Link(text: string, url: string)
    | Strong(text: string, marker: char)
    | Code(text: string)
    | Emphasis(text: string, marker: char)

  /** The characters of the input a piece stands for. */
  function Source(p: Piece): string {
    match p
    case Gap(t) => t
    case Link(t, u) => "[" + t + "](" + u + ")"
    case Strong(t, m) => [m, m] + t + [m, m]
    case Code(t) => "`" + t + "`"
    case Emphasis(t, m) => [m] + t + [m]
  }

  /** The sources of consecutive pieces, concatenated. */
  function Sources(ps: seq<Piece>): string
    decreases |ps|
  {
    if |ps| == 0 then "" else Source(ps[0]) + Sources(ps[1..])
  }

  lemma {:induction false} SourcesAppend(a: seq<Piece>, b: seq<Piece>)
    ensures Sources(a + b) == Sources(a) + Sources(b)
    decreases |a|
  {
    if |a| == 0 {
      assert a + b == b;
    } else {
      assert (a + b)[1..] == a[1..] + b;
      SourcesAppend(a[1..], b);
    }
  }

  /** Cutting a slice at an inner position. */
  lemma SliceConcat(s: string, a: nat, b: nat, c: nat)
    requires a <= b <= c <= |s|
    ensures s[a..c] == s[a..b] + s[b..c]
  {
  }

  predicate NoLineTerminator(t: string) {
    forall k :: 0 <= k < |t| ==> !IsLineTerminator(t[k])
  }

  // ---------------------------------------------------------------------------
  // The two repetition forms
  // ---------------------------------------------------------------------------

  /** The first position at or after `i` holding `c`. */
  function FirstIndexOf(s: string, i: nat, c: char): (r: Option<nat>)
    requires i <= |s|
    ensures r.Some? ==> i <= r.value < |s| && s[r.value] == c && c !in s[i..r.value]
    ensures r.None? ==> c !in s[i..]
    decreases |s| - i
  {
    if i == |s| then None
    else if s[i] == c then Some(i)
    else
      assert forall j :: i < j <= |s| ==> s[i..j] == [s[i]] + s[i + 1..j];
      assert s[i..] == [s[i]] + s[i + 1..];
      FirstIndexOf(s, i + 1, c)
  }

  /** `[^c]+c` with the run starting at `i`: the position of the closing `c`. */
  function CloseClass(s: string, i: nat, c: char): (q: Option<nat>)
    requires i <= |s|
    ensures q.Some? ==> i < q.value < |s| && s[q.value] == c && c !in s[i..q.value]
    ensures q.None? ==> i == |s| || s[i] == c || c !in s[i..]
  {
    match FirstIndexOf(s, i, c)
    case Some(q) => if q > i then Some(q) else None
    case None => None
  }

  /** `.+?` followed by `close`, the run starting at `i`: the position where `close` begins. */
  function LazyClose(s: string, i: nat, close: string): (q: Option<nat>)
    requires i <= |s|
    ensures q.Some? ==> i < q.value && q.value + |close| <= |s| && close <= s[q.value..]
    ensures q.Some? ==> NoLineTerminator(s[i..q.value])
    ensures q.Some? ==> forall k :: i < k < q.value ==> !(close <= s[k..])
  {
    if i < |s| && !IsLineTerminator(s[i]) then LazyFrom(s, i, i + 1, close) else None
  }

  /** The lazy search of `LazyClose`, with the run already extended to `s[i..q]`. */
  function LazyFrom(s: string, i: nat, q: nat, close: string): (r: Option<nat>)
    requires i < q <= |s| && NoLineTerminator(s[i..q])
    ensures r.Some? ==> q <= r.value && r.value + |close| <= |s| && close <= s[r.value..]
    ensures r.Some? ==> NoLineTerminator(s[i..r.value])
    ensures r.Some? ==> forall k :: q <= k < r.value ==> !(close <= s[k..])
    decreases |s| - q
  {
    if close <= s[q..] then Some(q)
    else if q < |s| && !IsLineTerminator(s[q]) then
      assert s[i..q + 1] == s[i..q] + [s[q]];
      LazyFrom(s, i, q + 1, close)
    else None
  }

  // ---------------------------------------------------------------------------
  // The alternatives at one position
  // ---------------------------------------------------------------------------

  /** A match: the piece and the position right after it. */
  datatype Found = Found(piece: Piece, end: nat)

  /** A found match covers a non-empty stretch of `s` from `p`, and its piece's source is exactly that stretch. */
  predicate Covers(s: string, p: nat, f: Found) {
    p < f.end <= |s| && !f.piece.Gap? && Source(f.piece) == s[p..f.end]
  }

  /** `\[([^\]]+)\]\(([^)]+)\)` at `p`. */
  function LinkAt(s: string, p: nat): (r: Option<Found>)
    requires p <= |s|
    ensures r.Some? ==> Covers(s, p, r.value) && r.value.piece.Link?
  {
    if p < |s| && s[p] == '[' then
      match CloseClass(s, p + 1, ']')
      case Some(q) =>
        if q + 1 < |s| && s[q + 1] == '(' then
          match CloseClass(s, q + 2, ')')
          case Some(e) =>
            LinkSource(s, p, q, e);
            Some(Found(Link(s[p + 1..q], s[q + 2..e]), e + 1))
          case None => None
        else None
      case None => None
    else None
  }

  /** The text from `[` at `p` to `)` at `e` is the source of the link it spells. */
  lemma LinkSource(s: string, p: nat, q: nat, e: nat)
    requires p < q && q + 2 <= e < |s|
    requires s[p] == '[' && s[q] == ']' && s[q + 1] == '(' && s[e] == ')'
    ensures Source(Link(s[p + 1..q], s[q + 2..e])) == s[p..e + 1]
  {
    var t, u := s[p + 1..q], s[q + 2..e];
    calc {
      s[p..e + 1];
    == { SliceConcat(s, p, e, e + 1); }
      s[p..e] + s[e..e + 1];
    == { SliceConcat(s, p, q + 2, e); }
      s[p..q + 2] + u + s[e..e + 1];
    == { SliceConcat(s, p, q, q + 2); }
      s[p..q] + s[q..q + 2] + u + s[e..e + 1];
    == { SliceConcat(s, p, p + 1, q); }
      s[p..p + 1] + t + s[q..q + 2] + u + s[e..e + 1];
    == { assert s[p..p + 1] == "[" && s[q..q + 2] == "](" && s[e..e + 1] == ")"; }
      "[" + t + "](" + u + ")";
    }
  }

  /** `\*\*(.+?)\*\*` or `__(.+?)__` at `p`, by the marker. */
  function StrongAt(s: string, p: nat, m: char): (r: Option<Found>)
    requires p <= |s|
    ensures r.Some? ==> Covers(s, p, r.value) && r.value.piece == Strong(r.value.piece.text, m)
  {
    if p + 2 <= |s| && s[p] == m && s[p + 1] == m then
      match LazyClose(s, p + 2, [m, m])
      case Some(q) =>
        assert s[q..q + 2] == [m, m];
        assert s[p..q + 2] == [s[p], s[p + 1]] + s[p + 2..q] + s[q..q + 2];
        Some(Found(Strong(s[p + 2..q], m), q + 2))
      case None => None
    else None
  }

  /** `` `([^`]+)` `` at `p`. */
  function CodeAt(s: string, p: nat): (r: Option<Found>)
    requires p <= |s|
    ensures r.Some? ==> Covers(s, p, r.value) && r.value.piece.Code?
  {
    if p < |s| && s[p] == '`' then
      match CloseClass(s, p + 1, '`')
      case Some(q) =>
        assert s[p..q + 1] == [s[p]] + s[p + 1..q] + [s[q]];
        Some(Found(Code(s[p + 1..q]), q + 1))
      case None => None
    else None
  }

  /** `\*(.+?)\*` at `p`. */
  function StarEmphasisAt(s: string, p: nat): (r: Option<Found>)
    requires p <= |s|
    ensures r.Some? ==> Covers(s, p, r.value) && r.value.piece == Emphasis(r.value.piece.text, '*')
  {
    if p < |s| && s[p] == '*' then
      match LazyClose(s, p + 1, "*")
      case Some(q) =>
        assert s[q] == '*';
        assert s[p..q + 1] == [s[p]] + s[p + 1..q] + [s[q]];
        Some(Found(Emphasis(s[p + 1..q], '*'), q + 1))
      case None => None
    else None
  }

  /** `_([^_]+)_` at `p`. */
  function UnderscoreEmphasisAt(s: string, p: nat): (r: Option<Found>)
    requires p <= |s|
    ensures r.Some? ==> Covers(s, p, r.value) && r.value.piece == Emphasis(r.value.piece.text, '_')
  {
    if p < |s| && s[p] == '_' then
      match CloseClass(s, p + 1, '_')
      case Some(q) =>
        assert s[p..q + 1] == [s[p]] + s[p + 1..q] + [s[q]];
        Some(Found(Emphasis(s[p + 1..q], '_'), q + 1))
      case None => None
    else None
  }

  /** The regular expression at position `p`: the first alternative, in priority order, that matches there. */
  function MatchAt(s: string, p: nat): (r: Option<Found>)
    requires p <= |s|
    ensures r.Some? ==> Covers(s, p, r.value)
    ensures r.Some? ==> p < |s| && s[p] in "[*_`"
  {
    MatchFrom(s, p, 0)
  }

  function Alternative(s: string, p: nat, k: nat): (r: Option<Found>)
    requires p <= |s|
    ensures r.Some? ==> Covers(s, p, r.value) && s[p] in "[*_`"
  {
    if k == 0 then LinkAt(s, p)
    else if k == 1 then StrongAt(s, p, '*')
    else if k == 2 then StrongAt(s, p, '_')
    else if k == 3 then CodeAt(s, p)
    else if k == 4 then StarEmphasisAt(s, p)
    else if k == 5 then UnderscoreEmphasisAt(s, p)
    else None
  }

  function MatchFrom(s: string, p: nat, k: nat): (r: Option<Found>)
    requires p <= |s|
    ensures r.Some? ==> Covers(s, p, r.value) && s[p] in "[*_`"
    decreases 6 - k
  {
    if k >= 6 then None
    else if Alternative(s, p, k).Some? then Alternative(s, p, k)
    else MatchFrom(s, p, k + 1)
  }

  /** From alternative `j` on, the search settles on the first alternative `k >= j` that matches. */
  lemma {:induction false} MatchFromFirst(s: string, p: nat, j: nat, k: nat)
    requires p <= |s| && j <= k < 6
    requires Alternative(s, p, k).Some?
    requires forall i :: j <= i < k ==> Alternative(s, p, i).None?
    ensures MatchFrom(s, p, j) == Alternative(s, p, k)
    decreases k - j
  {
    if j < k {
      MatchFromFirst(s, p, j + 1, k);
    }
  }

  /** From alternative `j` on, the search fails exactly when no alternative from `j` on matches. */
  lemma {:induction false} MatchFromNone(s: string, p: nat, j: nat)
    requires p <= |s|
    ensures MatchFrom(s, p, j).None? <==> forall i :: j <= i < 6 ==> Alternative(s, p, i).None?
    decreases 6 - j
  {
    if j < 6 {
      MatchFromNone(s, p, j + 1);
    }
  }

  /**
   * The priority of the alternatives: at one position the expression
   * matches the first alternative, in the order link, `**`, `__`, backtick,
   * `*`, `_`, that matches there, and nothing when none does.
   */
  lemma MatchAtPriority(s: string, p: nat, k: nat)
    requires p <= |s| && k < 6
    requires Alternative(s, p, k).Some?
    requires forall i :: 0 <= i < k ==> Alternative(s, p, i).None?
    ensures MatchAt(s, p) == Alternative(s, p, k)
  {
    MatchFromFirst(s, p, 0, k);
  }

  /** No match at a position exactly when no alternative matches there. */
  lemma MatchAtNone(s: string, p: nat)
    requires p <= |s|
    ensures MatchAt(s, p).None? <==> forall i :: 0 <= i < 6 ==> Alternative(s, p, i).None?
  {
    MatchFromNone(s, p, 0);
  }

  /** Text with none of the four opening characters contains no markup. */
  lemma NoMarkupWithoutOpeners(s: string, p: nat)
    requires p < |s| && s[p] !in "[*_`"
    ensures MatchAt(s, p).None?
  {
  }

  // ---------------------------------------------------------------------------
  // The scan
  // ---------------------------------------------------------------------------

  /** A match at position `pos`. */
  datatype Hit = Hit(pos: nat, found: Found)

  /** `exec` with `lastIndex == i`: the leftmost position at or after `i` where the expression matches. */
  function NextMatch(s: string, i: nat): (h: Option<Hit>)
    requires i <= |s|
    ensures h.Some? ==> i <= h.value.pos < |s| && Covers(s, h.value.pos, h.value.found)
    decreases |s| - i
  {
    if i == |s| then None
    else match MatchAt(s, i)
      case Some(f) => Some(Hit(i, f))
      case None => NextMatch(s, i + 1)
  }

  /** The match `NextMatch` reports is the one at the leftmost matching position, and none is skipped before it. */
  lemma {:induction false} NextMatchIsLeftmost(s: string, i: nat)
    requires i <= |s|
    ensures var h := NextMatch(s, i);
      && (h.Some? ==> MatchAt(s, h.value.pos) == Some(h.value.found))
      && (h.Some? ==> forall q :: i <= q < h.value.pos ==> MatchAt(s, q).None?)
      && (h.None? ==> forall q :: i <= q < |s| ==> MatchAt(s, q).None?)
    decreases |s| - i
  {
    if i < |s| {
      var m := MatchAt(s, i);
      if m.Some? {
        assert NextMatch(s, i) == Some(Hit(i, m.value));
      } else {
        assert NextMatch(s, i) == NextMatch(s, i + 1);
        NextMatchIsLeftmost(s, i + 1);
        NoMatchBefore(s, i, NextMatch(s, i + 1));
      }
    }
  }

  /** A search that fails at `i` and then finds `h` from `i + 1` on has skipped no match from `i` on. */
  lemma NoMatchBefore(s: string, i: nat, h: Option<Hit>)
    requires i < |s| && MatchAt(s, i).None?
    requires h.Some? ==> h.value.pos <= |s|
    requires h.Some? ==> forall q :: i + 1 <= q < h.value.pos ==> MatchAt(s, q).None?
    requires h.None? ==> forall q :: i + 1 <= q < |s| ==> MatchAt(s, q).None?
    ensures h.Some? ==> forall q :: i <= q < h.value.pos ==> MatchAt(s, q).None?
    ensures h.None? ==> forall q :: i <= q < |s| ==> MatchAt(s, q).None?
  {
    if h.Some? {
      forall q | i <= q < h.value.pos ensures MatchAt(s, q).None? {
        if q > i {
          assert i + 1 <= q < h.value.pos;
        }
      }
    } else {
      forall q | i <= q < |s| ensures MatchAt(s, q).None? {
        if q > i {
          assert i + 1 <= q < |s|;
        }
      }
    }
  }

  /** The plain text between `i` and a match at `pos`: one gap, or nothing when the match starts at `i`. */
  function GapBefore(s: string, i: nat, pos: nat): (g: seq<Piece>)
    requires i <= pos <= |s|
    ensures Sources(g) == s[i..pos]
    ensures |g| == 0 <==> i == pos
    ensures |g| <= 1 && (|g| == 1 ==> g[0] == Gap(s[i..pos]))
  {
    if pos > i then
      assert Sources([Gap(s[i..pos])]) == s[i..pos] + Sources([]);
      [Gap(s[i..pos])]
    else []
  }

  /** The pieces of `s[i..]`: the loop of the renderer, with the trailing text as a last gap. */
  function Tokens(s: string, i: nat): (ts: seq<Piece>)
    requires i <= |s|
    ensures |ts| == 0 <==> i == |s|
    ensures forall k :: 0 <= k < |ts| && ts[k].Gap? ==> ts[k].text != ""
    decreases |s| - i
  {
    match NextMatch(s, i)
    case None => GapBefore(s, i, |s|)
    case Some(h) => GapBefore(s, i, h.pos) + [h.found.piece] + Tokens(s, h.found.end)
  }

  /** One round of the renderer's loop: the gap before the next match, the match, and the pieces after it. */
  lemma TokensStep(s: string, i: nat)
    requires i <= |s|
    ensures NextMatch(s, i).None? ==> Tokens(s, i) == GapBefore(s, i, |s|)
    ensures NextMatch(s, i).Some? ==>
      var h := NextMatch(s, i).value;
      Tokens(s, i) == GapBefore(s, i, h.pos) + [h.found.piece] + Tokens(s, h.found.end)
  {
  }

  /** Concatenating the sources of the pieces gives back the text: nothing is dropped, duplicated or reordered. */
  lemma {:induction false} TokensRoundTrip(s: string, i: nat)
    requires i <= |s|
    ensures Sources(Tokens(s, i)) == s[i..]
    decreases |s| - i
  {
    TokensStep(s, i);
    if NextMatch(s, i).Some? {
      var h := NextMatch(s, i).value;
      TokensRoundTrip(s, h.found.end);
      SourcesOfRound(s, i, h.pos, h.found, Tokens(s, h.found.end));
    } else {
      assert s[i..|s|] == s[i..];
    }
  }

  /** One round of the loop gives back its stretch of text when the rest of the pieces give back theirs. */
  lemma SourcesOfRound(s: string, i: nat, pos: nat, f: Found, rest: seq<Piece>)
    requires i <= pos && Covers(s, pos, f)
    requires Sources(rest) == s[f.end..]
    ensures Sources(GapBefore(s, i, pos) + [f.piece] + rest) == s[i..]
  {
    var gap := GapBefore(s, i, pos);
    SourcesAppend(gap + [f.piece], rest);
    SourcesAppend(gap, [f.piece]);
    SourcesSingle(f.piece);
    ThreeSlices(s, i, pos, f.end, Sources(gap), Sources([f.piece]), Sources(rest));
  }

  lemma SourcesSingle(p: Piece)
    ensures Sources([p]) == Source(p)
  {
    assert Sources([p]) == Source(p) + Sources([]);
  }

  /** Three consecutive stretches of `s`, concatenated, are the stretch from the first start on. */
  lemma ThreeSlices(s: string, i: nat, j: nat, k: nat, a: string, b: string, c: string)
    requires i <= j <= k <= |s|
    requires a == s[i..j] && b == s[j..k] && c == s[k..]
    ensures a + b + c == s[i..]
  {
    SliceConcat(s, i, j, |s|);
    SliceConcat(s, j, k, |s|);
  }

  /**
   * How the scan sees piece `p` placed at offset `o` of `s`: a gap is a
   * stretch where no match starts, and any other piece is exactly the match
   * the regular expression finds at `o`.
   */
  predicate ScannedAt(s: string, o: nat, p: Piece) {
    && o + |Source(p)| <= |s|
    && (p.Gap? ==> forall q :: o <= q < o + |p.text| ==> MatchAt(s, q).None?)
    && (!p.Gap? ==> MatchAt(s, o) == Some(Found(p, o + |Source(p)|)))
  }

  /** The pieces `ts`, laid end to end from offset `o`, are each where the scan sees them. */
  predicate Scanned(s: string, o: nat, ts: seq<Piece>)
    decreases |ts|
  {
    |ts| == 0 || (ScannedAt(s, o, ts[0]) && Scanned(s, o + |Source(ts[0])|, ts[1..]))
  }

  lemma ScannedCons(s: string, o: nat, p: Piece, e: nat, ts: seq<Piece>)
    requires ScannedAt(s, o, p) && o + |Source(p)| == e && Scanned(s, e, ts)
    ensures Scanned(s, o, [p] + ts)
  {
    var l := [p] + ts;
    assert l[0] == p && l[1..] == ts;
    ScannedStep(s, o, l);
  }

  lemma ScannedStep(s: string, o: nat, ts: seq<Piece>)
    requires |ts| > 0
    ensures Scanned(s, o, ts) <==> ScannedAt(s, o, ts[0]) && Scanned(s, o + |Source(ts[0])|, ts[1..])
  {
  }

  /** The gap and the match of one round, followed by pieces the scan sees, are all seen by the scan. */
  lemma ScannedRound(s: string, i: nat, pos: nat, f: Found, rest: seq<Piece>)
    requires i <= pos && Covers(s, pos, f) && MatchAt(s, pos) == Some(f)
    requires forall q :: i <= q < pos ==> MatchAt(s, q).None?
    requires Scanned(s, f.end, rest)
    ensures Scanned(s, i, GapBefore(s, i, pos) + [f.piece] + rest)
  {
    var tail := [f.piece] + rest;
    ScannedMatch(s, pos, f);
    ScannedCons(s, pos, f.piece, f.end, rest);
    ScannedAfterGap(s, i, pos, tail);
    assert GapBefore(s, i, pos) + [f.piece] + rest == GapBefore(s, i, pos) + tail;
  }

  /** A stretch without match starts, followed by pieces the scan sees, is seen by the scan as a gap. */
  lemma ScannedAfterGap(s: string, i: nat, pos: nat, tail: seq<Piece>)
    requires i <= pos <= |s|
    requires forall q :: i <= q < pos ==> MatchAt(s, q).None?
    requires Scanned(s, pos, tail)
    ensures Scanned(s, i, GapBefore(s, i, pos) + tail)
  {
    var gap := GapBefore(s, i, pos);
    if pos > i {
      assert gap == [Gap(s[i..pos])];
      ScannedGap(s, i, pos);
      ScannedCons(s, i, Gap(s[i..pos]), pos, tail);
    } else {
      assert gap == [];
      assert gap + tail == tail;
    }
  }

  lemma ScannedMatch(s: string, pos: nat, f: Found)
    requires Covers(s, pos, f) && MatchAt(s, pos) == Some(f)
    ensures ScannedAt(s, pos, f.piece) && pos + |Source(f.piece)| == f.end
  {
  }

  lemma ScannedGap(s: string, i: nat, pos: nat)
    requires i < pos <= |s|
    requires forall q :: i <= q < pos ==> MatchAt(s, q).None?
    ensures ScannedAt(s, i, Gap(s[i..pos])) && i + |Source(Gap(s[i..pos]))| == pos
  {
  }

  /**
   * Every piece is where the scan sees it: a gap is a stretch in which no
   * match starts, and every other piece is the match the regular expression
   * finds at its offset.
   */
  lemma {:induction false} TokensAreTheScan(s: string, i: nat)
    requires i <= |s|
    ensures Scanned(s, i, Tokens(s, i))
    decreases |s| - i
  {
    TokensStep(s, i);
    NextMatchIsLeftmost(s, i);
    if NextMatch(s, i).Some? {
      var h := NextMatch(s, i).value;
      TokensAreTheScan(s, h.found.end);
      ScannedRound(s, i, h.pos, h.found, Tokens(s, h.found.end));
    } else if i < |s| {
      assert s[i..|s|] == s[i..];
      ScannedCons(s, i, Gap(s[i..]), |s|, []);
    }
  }

  /** Two gaps are never adjacent: every gap is followed by a match or ends the text. */
  lemma {:induction false} GapsAreMaximal(s: string, i: nat, k: nat)
    requires i <= |s| && k + 1 < |Tokens(s, i)|
    requires Tokens(s, i)[k].Gap?
    ensures !Tokens(s, i)[k + 1].Gap?
    decreases |s| - i
  {
    TokensStep(s, i);
    if NextMatch(s, i).Some? {
      var h := NextMatch(s, i).value;
      var head := GapBefore(s, i, h.pos) + [h.found.piece];
      var rest := Tokens(s, h.found.end);
      assert Tokens(s, i) == head + rest;
      if k >= |head| {
        GapsAreMaximal(s, h.found.end, k - |head|);
        assert Tokens(s, i)[k] == rest[k - |head|];
        assert Tokens(s, i)[k + 1] == rest[k + 1 - |head|];
      }
    }
  }

  /** The text is a single gap exactly when it is non-empty and no position in it starts a match. */
  lemma SingleGapIff(s: string)
    ensures Tokens(s, 0) == [Gap(s)] <==> s != "" && forall q :: 0 <= q < |s| ==> MatchAt(s, q).None?
  {
    TokensStep(s, 0);
    NextMatchIsLeftmost(s, 0);
    assert s[0..|s|] == s;
    if NextMatch(s, 0).Some? {
      var h := NextMatch(s, 0).value;
      var gap := GapBefore(s, 0, h.pos);
      assert Tokens(s, 0)[|gap|] == h.found.piece;
    }
  }

  // ---------------------------------------------------------------------------
  // Rendering
  // ---------------------------------------------------------------------------

  /** A rendered element. */
  datatype Element =
    | Span(text: string)
    | Anchor(text: string, href: string, newTab: bool)
    | StrongText(text: string)
    | CodeText(text: string)
    | EmphasisText(text: string)

  /** How one piece is rendered; a link opens a new tab exactly when its address starts with `http`. */
  function Render(p: Piece): (e: Element)
    ensures p.Gap? <==> e.Span?
    ensures p.Link? <==> e.Anchor?
    ensures p.Link? ==> e.href == p.url && e.text == p.text && (e.newTab <==> "http" <= p.url)
    ensures p.Strong? <==> e.StrongText?
    ensures p.Code? <==> e.CodeText?
    ensures p.Emphasis? <==> e.EmphasisText?
    ensures e.text == p.text
  {
    match p
    case Gap(t) => Span(t)
    case Link(t, u) => Anchor(t, u, "http" <= u)
    case Strong(t, _) => StrongText(t)
    case Code(t) => CodeText(t)
    case Emphasis(t, _) => EmphasisText(t)
  }

  /** What `parseMarkdown` returns: the text itself when no element was produced, else the elements. */
  datatype Output = Unchanged(text: string) | Elements(elements: seq<Element>)

  function ParseMarkdown(s: string): (out: Output)
    ensures out.Unchanged? <==> s == ""
    ensures out.Unchanged? ==> out.text == s
    ensures out.Elements? ==>
      |out.elements| == |Tokens(s, 0)|
      && forall k :: 0 <= k < |out.elements| ==> out.elements[k] == Render(Tokens(s, 0)[k])
  {
    var ts := Tokens(s, 0);
    if |ts| > 0 then Elements(seq(|ts|, k requires 0 <= k < |ts| => Render(ts[k]))) else Unchanged(s)
  }

  // ---------------------------------------------------------------------------
  // Worked examples
  // ---------------------------------------------------------------------------

  /** The relative-link example holds a link at offset 2 ending at offset 9. */
  lemma RelativeLinkAt()
    ensures MatchAt("x [t](/u) y", 2) == Some(Found(Link("t", "/u"), 9))
  {
    var s := "x [t](/u) y";
    assert CloseClass(s, 3, ']') == Some(4);
    assert CloseClass(s, 6, ')') == Some(8);
    assert s[2] == '[' && s[5] == '(' && s[3..4] == "t" && s[6..8] == "/u";
    assert LinkAt(s, 2) == Some(Found(Link("t", "/u"), 9));
  }

  /** The searches of the relative-link example: the link at offset 2, then nothing after it. */
  lemma RelativeLinkSearches()
    ensures NextMatch("x [t](/u) y", 0) == Some(Hit(2, Found(Link("t", "/u"), 9)))
    ensures NextMatch("x [t](/u) y", 9) == None
  {
    var s := "x [t](/u) y";
    RelativeLinkAt();
    NoMarkupWithoutOpeners(s, 0);
    NoMarkupWithoutOpeners(s, 1);
    assert NextMatch(s, 1) == NextMatch(s, 2);
    NoMarkupWithoutOpeners(s, 9);
    NoMarkupWithoutOpeners(s, 10);
    assert NextMatch(s, 10) == None;
  }

  /** The pieces of the relative-link example: the text before, the link, the text after. */
  lemma RelativeLinkTokens()
    ensures Tokens("x [t](/u) y", 0) == [Gap("x "), Link("t", "/u"), Gap(" y")]
  {
    var s := "x [t](/u) y";
    RelativeLinkSearches();
    TokensStep(s, 9);
    assert s[9..|s|] == " y";
    assert Tokens(s, 9) == [Gap(" y")];
    TokensStep(s, 0);
    assert s[0..2] == "x ";
    assert GapBefore(s, 0, 2) == [Gap("x ")];
  }

  /** A relative link stays in the tab, and the text around it becomes plain spans. */
  lemma RelativeLinkExample()
    ensures ParseMarkdown("x [t](/u) y")
      == Elements([Span("x "), Anchor("t", "/u", false), Span(" y")])
  {
    RelativeLinkTokens();
  }

  /** The searches of the emphasis example: `**a**` at offset 0, then nothing after it. */
  lemma StrongSearches()
    ensures NextMatch("**a** *", 0) == Some(Hit(0, Found(Strong("a", '*'), 5)))
    ensures NextMatch("**a** *", 5) == None
  {
    var s := "**a** *";
    var strong := Found(Strong("a", '*'), 5);
    assert LazyClose(s, 2, "**") == Some(3);
    assert s[0] == '*' && s[1] == '*' && s[2..3] == "a";
    assert StrongAt(s, 0, '*') == Some(strong);
    assert MatchFrom(s, 0, 1) == Some(strong);
    assert MatchAt(s, 0) == Some(strong);
    assert LazyClose(s, 7, "*") == None;
    assert MatchFrom(s, 6, 5) == None;
    assert MatchFrom(s, 6, 4) == None;
    assert MatchFrom(s, 6, 3) == None;
    assert MatchFrom(s, 6, 2) == None;
    assert MatchFrom(s, 6, 1) == None;
    assert MatchAt(s, 6) == None;
    NoMarkupWithoutOpeners(s, 5);
    assert NextMatch(s, 6) == None;
  }

  /** `**` wins over `*` at the same position, and a lone `*` is plain text. */
  lemma StrongBeforeEmphasisExample()
    ensures ParseMarkdown("**a** *") == Elements([StrongText("a"), Span(" *")])
  {
    var s := "**a** *";
    StrongSearches();
    TokensStep(s, 0);
    TokensStep(s, 5);
    assert s[5..|s|] == " *";
    assert Tokens(s, 0) == [Strong("a", '*'), Gap(" *")];
  }
}
