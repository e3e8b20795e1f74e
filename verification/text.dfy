/**
 * The JavaScript string primitives the portfolio's logic relies on, stated
 * over `string` (a sequence of Unicode scalar values): `toLowerCase` as far
 * as it can produce ASCII, `includes`, `startsWith`, `trim`, `split`/`join`
 * with a literal separator, `length` and `substring` in UTF-16 code units,
 * `Number.prototype.toString` for non-negative integers and `parseInt(s, 10)`.
 */
module Text {
  import opened Wrappers

  // ---------------------------------------------------------------------------
  // Character classes
  // ---------------------------------------------------------------------------

  /** The ECMAScript WhiteSpace and LineTerminator code points: what `trim` strips. */
  predicate IsJsWhitespace(c: char) {
    || c == '\t' || c == '\n' || c == '\U{000B}' || c == '\U{000C}' || c == '\r'
    || c == ' ' || c == '\U{00A0}' || c == '\U{1680}'
    || ('\U{2000}' <= c <= '\U{200A}')
    || c == '\U{2028}' || c == '\U{2029}' || c == '\U{202F}' || c == '\U{205F}'
    || c == '\U{3000}' || c == '\U{FEFF}'
  }

  /** The line terminators: the characters `.` does not match in a JavaScript regular expression. */
  predicate IsLineTerminator(c: char) {
    c == '\n' || c == '\r' || c == '\U{2028}' || c == '\U{2029}'
  }

  predicate IsDigit(c: char) {
    '0' <= c <= '9'
  }

  predicate IsAsciiUpper(c: char) {
    'A' <= c <= 'Z'
  }

  // ---------------------------------------------------------------------------
  // toLowerCase
  // ---------------------------------------------------------------------------

  /**
   * Lower-casing of one character. ASCII letters are exact; of the other code
   * points only KELVIN SIGN (to `k`) and LATIN CAPITAL LETTER I WITH DOT ABOVE
   * (to `i` + COMBINING DOT ABOVE) lower-case to something containing an ASCII
   * character, and every other character is kept as it is.
   */
  function LowerChar(c: char): string {
    if IsAsciiUpper(c) then [(c as int + 32) as char]
    else if c == '\U{212A}' then "k"
    else if c == '\U{0130}' then "i\U{0307}"
    else [c]
  }

  /**
   * `s.toLowerCase()` as far as it produces ASCII: ASCII capitals, KELVIN
   * SIGN and LATIN CAPITAL LETTER I WITH DOT ABOVE are lowered as JavaScript
   * lowers them, and every other character is kept, non-ASCII capitals such
   * as `É` included. JavaScript lowers those to characters outside ASCII
   * too, and every use in this model compares the result with ASCII text
   * only (keywords, table keys, the `[a-z0-9]` filter).
   */
  function JsLower(s: string): (r: string)
    ensures forall i :: 0 <= i < |r| ==> !IsAsciiUpper(r[i])
    ensures |r| >= |s|
    decreases |s|
  {
    if |s| == 0 then "" else LowerChar(s[0]) + JsLower(s[1..])
  }

  /** Lower-casing distributes over concatenation. */
  lemma {:induction false} JsLowerAppend(a: string, b: string)
    ensures JsLower(a + b) == JsLower(a) + JsLower(b)
    decreases |a|
  {
    if |a| == 0 {
      assert a + b == b;
    } else {
      assert (a + b)[1..] == a[1..] + b;
      JsLowerAppend(a[1..], b);
    }
  }

  lemma JsLowerSingle(c: char)
    ensures JsLower([c]) == LowerChar(c)
  {
    assert [c][1..] == "";
  }

  /** The lower-case form of one character is left alone by a second lower-casing. */
  lemma LowerCharIdempotent(c: char)
    ensures JsLower(LowerChar(c)) == LowerChar(c)
  {
    var l := LowerChar(c);
    if c == '\U{0130}' {
      JsLowerAppend("i", "\U{0307}");
      JsLowerSingle('i');
      JsLowerSingle('\U{0307}');
    } else {
      assert l == [l[0]];
      JsLowerSingle(l[0]);
    }
  }

  /** Lower-casing twice is lower-casing once. */
  lemma {:induction false} JsLowerIdempotent(s: string)
    ensures JsLower(JsLower(s)) == JsLower(s)
    decreases |s|
  {
    if |s| > 0 {
      JsLowerAppend(LowerChar(s[0]), JsLower(s[1..]));
      LowerCharIdempotent(s[0]);
      JsLowerIdempotent(s[1..]);
    }
  }

  /** An ASCII-only string without upper-case letters is its own lower-case form. */
  lemma {:induction false} JsLowerOfLower(s: string)
    requires forall i :: 0 <= i < |s| ==> s[i] < '\U{0080}' && !IsAsciiUpper(s[i])
    ensures JsLower(s) == s
    decreases |s|
  {
    if |s| > 0 {
      JsLowerOfLower(s[1..]);
    }
  }

  /** A capitalised word followed by lower-case ASCII lower-cases to its first letter's small form and the rest unchanged. */
  lemma LowerCapitalized(c: char, w: string, rest: string)
    requires IsAsciiUpper(c)
    requires forall i :: 0 <= i < |w| ==> w[i] < '\U{0080}' && !IsAsciiUpper(w[i])
    ensures JsLower([c] + w + rest) == [(c as int + 32) as char] + w + JsLower(rest)
  {
    JsLowerAppend([c] + w, rest);
    JsLowerAppend([c], w);
    JsLowerSingle(c);
    JsLowerOfLower(w);
  }

  // ---------------------------------------------------------------------------
  // includes
  // ---------------------------------------------------------------------------

  /** `s.includes(sub)`: `sub` occurs in `s` at some position. */
  predicate Contains(s: string, sub: string) {
    exists i :: 0 <= i <= |s| && sub <= s[i..]
  }

  /** A string contains whatever its prefix contains. */
  lemma ContainsOfPrefix(s: string, t: string, sub: string)
    requires sub <= s
    ensures Contains(s + t, sub)
  {
    assert sub <= (s + t)[0..];
  }

  // ---------------------------------------------------------------------------
  // trim
  // ---------------------------------------------------------------------------

  /** The index of the first character at or after `i` that is not whitespace, or `|s|`. */
  function TrimStartIndex(s: string, i: nat): (a: nat)
    requires i <= |s|
    ensures i <= a <= |s|
    ensures forall k :: i <= k < a ==> IsJsWhitespace(s[k])
    ensures a < |s| ==> !IsJsWhitespace(s[a])
    decreases |s| - i
  {
    if i < |s| && IsJsWhitespace(s[i]) then TrimStartIndex(s, i + 1) else i
  }

  /** The index after the last character before `j` and at or after `a` that is not whitespace, or `a`. */
  function TrimEndIndex(s: string, a: nat, j: nat): (b: nat)
    requires a <= j <= |s|
    ensures a <= b <= j
    ensures forall k :: b <= k < j ==> IsJsWhitespace(s[k])
    ensures b > a ==> !IsJsWhitespace(s[b - 1])
    decreases j - a
  {
    if j > a && IsJsWhitespace(s[j - 1]) then TrimEndIndex(s, a, j - 1) else j
  }

  /** `s.trimStart()`: the suffix of `s` left after its leading whitespace. */
  function TrimStart(s: string): (r: string)
    ensures |r| <= |s| && r == s[|s| - |r|..]
    ensures forall k :: 0 <= k < |s| - |r| ==> IsJsWhitespace(s[k])
    ensures |r| > 0 ==> !IsJsWhitespace(r[0])
  {
    s[TrimStartIndex(s, 0)..]
  }

  /** `s.trim()`: the slice of `s` between its leading and its trailing whitespace. */
  function Trim(s: string): (r: string)
    ensures var a := TrimStartIndex(s, 0);
      && a + |r| <= |s| && r == s[a..a + |r|]
      && (forall k :: 0 <= k < a ==> IsJsWhitespace(s[k]))
      && (forall k :: a + |r| <= k < |s| ==> IsJsWhitespace(s[k]))
    ensures |r| > 0 ==> !IsJsWhitespace(r[0]) && !IsJsWhitespace(r[|r| - 1])
  {
    var a := TrimStartIndex(s, 0);
    s[a..TrimEndIndex(s, a, |s|)]
  }

  /** The trimmed text is empty exactly when the input is whitespace only. */
  lemma TrimEmptyIff(s: string)
    ensures Trim(s) == "" <==> forall k :: 0 <= k < |s| ==> IsJsWhitespace(s[k])
  {
  }

  /** Trimming is idempotent. */
  lemma TrimIdempotent(s: string)
    ensures Trim(Trim(s)) == Trim(s)
  {
  }

  // ---------------------------------------------------------------------------
  // split / join with a literal separator
  // ---------------------------------------------------------------------------

  /** `s.indexOf(sep)`: the first position at which `sep` occurs in `s`. */
  function IndexOf(s: string, sep: string): (r: Option<nat>)
    ensures r.Some? ==> r.value + |sep| <= |s| && sep <= s[r.value..]
    ensures r.Some? ==> forall k :: 0 <= k < r.value ==> !(sep <= s[k..])
    ensures r.None? ==> forall k :: 0 <= k <= |s| ==> !(sep <= s[k..])
  {
    IndexFrom(s, sep, 0)
  }

  /** The first position at or after `j` where `sep` occurs in `s`. */
  function IndexFrom(s: string, sep: string, j: nat): (r: Option<nat>)
    requires j <= |s|
    ensures r.Some? ==> j <= r.value && r.value + |sep| <= |s| && sep <= s[r.value..]
    ensures r.Some? ==> forall k :: j <= k < r.value ==> !(sep <= s[k..])
    ensures r.None? ==> forall k :: j <= k <= |s| ==> !(sep <= s[k..])
    decreases |s| - j
  {
    if sep <= s[j..] then Some(j)
    else if j == |s| then None
    else IndexFrom(s, sep, j + 1)
  }

  /** `s.split(sep)` for a non-empty literal separator: the pieces between its leftmost non-overlapping occurrences. */
  function Split(s: string, sep: string): (parts: seq<string>)
    requires |sep| > 0
    ensures |parts| >= 1
    ensures forall i :: 0 <= i < |parts| ==> !Contains(parts[i], sep)
    decreases |s|
  {
    match IndexOf(s, sep)
    case None => [s]
    case Some(i) =>
      assert forall k :: 0 <= k <= i && sep <= s[..i][k..] ==> sep <= s[k..];
      [s[..i]] + Split(s[i + |sep|..], sep)
  }

  /** A one-character needle occurs exactly when the character does. */
  lemma ContainsCharIff(s: string, c: char)
    ensures Contains(s, [c]) <==> c in s
  {
    if c in s {
      var i :| 0 <= i < |s| && s[i] == c;
      assert [c] <= s[i..];
    }
    if Contains(s, [c]) {
      var i :| 0 <= i <= |s| && [c] <= s[i..];
      assert s[i] == c;
    }
  }

  /** Without an occurrence of the separator, splitting yields the whole text as the only piece. */
  lemma SplitNoSeparator(s: string, sep: string)
    requires |sep| > 0 && !Contains(s, sep)
    ensures Split(s, sep) == [s]
  {
    if IndexOf(s, sep).Some? {
      assert false;
    }
  }

  /** The first piece of a split is a prefix of the text. */
  lemma SplitHeadIsPrefix(s: string, sep: string)
    requires |sep| > 0
    ensures Split(s, sep)[0] <= s
  {
  }

  /** The first piece of a split is the text before the first separator. */
  lemma SplitHeadChar(head: string, c: char, rest: string)
    requires c !in head
    ensures Split(head + [c] + rest, [c])[0] == head
  {
    ContainsCharIff(head, c);
    SplitCharCons(head, c, rest);
  }

  /** `parts.join(sep)`. */
  function Join(parts: seq<string>, sep: string): string
    decreases |parts|
  {
    if |parts| == 0 then ""
    else if |parts| == 1 then parts[0]
    else parts[0] + sep + Join(parts[1..], sep)
  }

  lemma JoinCons(head: string, tail: seq<string>, sep: string)
    requires |tail| >= 1
    ensures Join([head] + tail, sep) == head + sep + Join(tail, sep)
  {
    assert ([head] + tail)[1..] == tail;
  }

  lemma SplitStep(s: string, sep: string)
    requires |sep| > 0
    ensures match IndexOf(s, sep)
      case None => Split(s, sep) == [s]
      case Some(i) => Split(s, sep) == [s[..i]] + Split(s[i + |sep|..], sep)
  {
  }

  /** Cutting `s` around an occurrence of `sep` at `i` loses nothing. */
  lemma CutAround(s: string, i: nat, sep: string)
    requires i + |sep| <= |s| && sep <= s[i..]
    ensures s == s[..i] + sep + s[i + |sep|..]
  {
    assert s[i..i + |sep|] == sep;
    assert s == s[..i] + s[i..i + |sep|] + s[i + |sep|..];
  }

  /** Joining the pieces of a split with the same separator gives back the input. */
  lemma {:induction false} JoinSplit(s: string, sep: string)
    requires |sep| > 0
    ensures Join(Split(s, sep), sep) == s
    decreases |s|
  {
    SplitStep(s, sep);
    match IndexOf(s, sep)
    case None =>
    case Some(i) =>
      var rest := s[i + |sep|..];
      JoinSplit(rest, sep);
      JoinCons(s[..i], Split(rest, sep), sep);
      CutAround(s, i, sep);
  }

  /** Text that starts with a piece free of the one-character separator splits into that piece and the split of the rest. */
  lemma SplitCharCons(p: string, c: char, rest: string)
    requires !Contains(p, [c])
    ensures Split(p + [c] + rest, [c]) == [p] + Split(rest, [c])
  {
    var s := p + [c] + rest;
    forall k | 0 <= k < |p|
      ensures !([c] <= s[k..])
    {
      assert s[k] == p[k];
      assert !([c] <= p[k..]);
    }
    assert [c] <= s[|p|..];
    assert IndexOf(s, [c]) == Some(|p|);
    assert s[..|p|] == p;
    assert s[|p| + 1..] == rest;
    SplitStep(s, [c]);
  }

  /** When no piece contains the one-character separator, splitting the joined text gives the pieces back. */
  lemma {:induction false} SplitJoinChar(parts: seq<string>, c: char)
    requires |parts| >= 1
    requires forall i :: 0 <= i < |parts| ==> !Contains(parts[i], [c])
    ensures Split(Join(parts, [c]), [c]) == parts
    decreases |parts|
  {
    if |parts| == 1 {
      SplitNoSeparator(parts[0], [c]);
    } else {
      assert Join(parts, [c]) == parts[0] + [c] + Join(parts[1..], [c]);
      SplitCharCons(parts[0], c, Join(parts[1..], [c]));
      SplitJoinChar(parts[1..], c);
    }
  }

  /**
   * Text that starts with a piece free of a two-character separator whose
   * characters differ splits into that piece and the split of the rest: no
   * occurrence can straddle the piece and the separator.
   */
  lemma SplitPairCons(p: string, a: char, b: char, rest: string)
    requires a != b && !Contains(p, [a, b])
    ensures Split(p + [a, b] + rest, [a, b]) == [p] + Split(rest, [a, b])
  {
    var sep := [a, b];
    var s := p + sep + rest;
    forall k | 0 <= k < |p|
      ensures !(sep <= s[k..])
    {
      if k + 1 < |p| {
        assert s[k] == p[k] && s[k + 1] == p[k + 1];
        assert !(sep <= p[k..]);
      } else {
        assert s[k + 1] == a;
      }
    }
    assert sep <= s[|p|..];
    assert IndexOf(s, sep) == Some(|p|);
    assert s[..|p|] == p;
    assert s[|p| + 2..] == rest;
    SplitStep(s, sep);
  }

  /** When no piece contains a two-character separator whose characters differ, splitting the joined text gives the pieces back. */
  lemma {:induction false} SplitJoinPair(parts: seq<string>, a: char, b: char)
    requires a != b && |parts| >= 1
    requires forall i :: 0 <= i < |parts| ==> !Contains(parts[i], [a, b])
    ensures Split(Join(parts, [a, b]), [a, b]) == parts
    decreases |parts|
  {
    if |parts| == 1 {
      SplitNoSeparator(parts[0], [a, b]);
    } else {
      assert Join(parts, [a, b]) == parts[0] + [a, b] + Join(parts[1..], [a, b]);
      SplitPairCons(parts[0], a, b, Join(parts[1..], [a, b]));
      SplitJoinPair(parts[1..], a, b);
    }
  }

  /** Joining a longer list of pieces appends the separator and the remaining pieces. */
  lemma {:induction false} JoinAppend(parts: seq<string>, sep: string, k: nat)
    requires 1 <= k < |parts|
    ensures Join(parts, sep) == Join(parts[..k], sep) + sep + Join(parts[k..], sep)
    decreases k
  {
    if k == 1 {
      assert parts[..1] == [parts[0]];
      assert parts[1..] == parts[k..];
    } else {
      JoinAppend(parts[1..], sep, k - 1);
      assert parts[1..][..k - 1] == parts[..k][1..];
      assert parts[1..][k - 1..] == parts[k..];
    }
  }

  /** Joining the first `k` pieces yields a prefix of joining them all. */
  lemma JoinPrefix(parts: seq<string>, sep: string, k: nat)
    requires k <= |parts|
    ensures Join(parts[..k], sep) <= Join(parts, sep)
  {
    if k == 0 {
    } else if k == |parts| {
      assert parts[..k] == parts;
    } else {
      JoinAppend(parts, sep, k);
    }
  }

  // ---------------------------------------------------------------------------
  // UTF-16: what `length` and `substring` count
  // ---------------------------------------------------------------------------

  /** A UTF-16 code unit: the element a JavaScript string is made of. */
  type CodeUnit = u: int | 0 <= u < 0x1_0000

  predicate IsHighSurrogate(u: CodeUnit) {
    0xD800 <= u < 0xDC00
  }

  predicate IsLowSurrogate(u: CodeUnit) {
    0xDC00 <= u < 0xE000
  }

  /** The code units of one character: the character itself below U+10000, otherwise a surrogate pair. */
  function CharUnits(c: char): (us: seq<CodeUnit>)
    ensures |us| == if c as int < 0x1_0000 then 1 else 2
  {
    if c as int < 0x1_0000 then [c as int]
    else
      var v := c as int - 0x1_0000;
      [0xD800 + v / 0x400, 0xDC00 + v % 0x400]
  }

  /** The UTF-16 encoding of `s`: the code units of the JavaScript string it stands for. */
  function Utf16(s: string): seq<CodeUnit>
    decreases |s|
  {
    if |s| == 0 then [] else CharUnits(s[0]) + Utf16(s[1..])
  }

  /** `s.length`: the number of UTF-16 code units, one or two per character. */
  function Utf16Length(s: string): (n: nat)
    ensures n == |Utf16(s)|
    ensures |s| <= n <= 2 * |s|
    decreases |s|
  {
    if |s| == 0 then 0 else |CharUnits(s[0])| + Utf16Length(s[1..])
  }

  /**
   * Reading code units back as characters: a high surrogate followed by a
   * low one is one character above U+FFFF, and a lone surrogate, which no
   * character encodes to, reads as `None`.
   */
  function Utf16Decode(us: seq<CodeUnit>): Option<string>
    decreases |us|
  {
    if |us| == 0 then Some("")
    else if |us| >= 2 && IsHighSurrogate(us[0]) && IsLowSurrogate(us[1]) then
      var c := 0x1_0000 + (us[0] as int - 0xD800) * 0x400 + (us[1] as int - 0xDC00);
      match Utf16Decode(us[2..])
      case None => None
      case Some(rest) => Some([c as char] + rest)
    else if IsHighSurrogate(us[0]) || IsLowSurrogate(us[0]) then None
    else
      match Utf16Decode(us[1..])
      case None => None
      case Some(rest) => Some([us[0] as char] + rest)
  }

  /** Decoding the encoding of a string gives the string back, so no two strings share an encoding. */
  lemma {:induction false} Utf16RoundTrip(s: string)
    ensures Utf16Decode(Utf16(s)) == Some(s)
    decreases |s|
  {
    if |s| > 0 {
      var us := Utf16(s);
      var head := CharUnits(s[0]);
      assert us == head + Utf16(s[1..]);
      Utf16RoundTrip(s[1..]);
      if s[0] as int < 0x1_0000 {
        assert us[0] == s[0] as int && us[1..] == Utf16(s[1..]);
        assert !IsHighSurrogate(us[0]) && !IsLowSurrogate(us[0]);
        assert us[0] as char == s[0];
        assert Utf16Decode(us) == Some([s[0]] + s[1..]);
        assert [s[0]] + s[1..] == s;
      } else {
        var v := s[0] as int - 0x1_0000;
        assert us[0] == 0xD800 + v / 0x400 && us[1] == 0xDC00 + v % 0x400;
        assert IsHighSurrogate(us[0]) && IsLowSurrogate(us[1]);
        assert 0x1_0000 + (us[0] as int - 0xD800) * 0x400 + (us[1] as int - 0xDC00) == s[0] as int;
        assert us[2..] == Utf16(s[1..]);
        assert [s[0]] + s[1..] == s;
      }
    }
  }

  /** Encoding distributes over concatenation. */
  lemma {:induction false} Utf16Append(a: string, b: string)
    ensures Utf16(a + b) == Utf16(a) + Utf16(b)
    decreases |a|
  {
    if |a| == 0 {
      assert a + b == b;
    } else {
      assert (a + b)[0] == a[0] && (a + b)[1..] == a[1..] + b;
      Utf16Append(a[1..], b);
    }
  }

  /** The length counts one unit per character exactly when no character lies above U+FFFF. */
  lemma {:induction false} Utf16LengthIsLength(s: string)
    ensures Utf16Length(s) == |s| <==> forall i :: 0 <= i < |s| ==> s[i] as int < 0x1_0000
    decreases |s|
  {
    if |s| > 0 {
      Utf16LengthIsLength(s[1..]);
      assert forall i :: 1 <= i < |s| ==> s[i] == s[1..][i - 1];
    }
  }

  /** A string of characters above U+FFFF counts two units per character. */
  lemma {:induction false} Utf16LengthAstral(s: string)
    requires forall i :: 0 <= i < |s| ==> s[i] as int >= 0x1_0000
    ensures Utf16Length(s) == 2 * |s|
    decreases |s|
  {
    if |s| > 0 {
      Utf16LengthAstral(s[1..]);
    }
  }

  // ---------------------------------------------------------------------------
  // Decimal numbers
  // ---------------------------------------------------------------------------

  function DigitChar(d: nat): (c: char)
    requires d < 10
    ensures IsDigit(c) && c as int - '0' as int == d
  {
    ('0' as int + d) as char
  }

  /** `n.toString()` for a non-negative integer: its decimal digits, most significant first. */
  function NatToString(n: nat): (r: string)
    ensures |r| >= 1
    ensures forall i :: 0 <= i < |r| ==> IsDigit(r[i])
    decreases n
  {
    if n < 10 then [DigitChar(n)] else NatToString(n / 10) + [DigitChar(n % 10)]
  }

  predicate AllDigits(s: string) {
    forall i :: 0 <= i < |s| ==> IsDigit(s[i])
  }

  /** The value of a string of decimal digits. */
  function DigitsValue(ds: string): nat
    requires AllDigits(ds)
    decreases |ds|
  {
    if |ds| == 0 then 0
    else DigitsValue(ds[..|ds| - 1]) * 10 + (ds[|ds| - 1] as int - '0' as int)
  }

  /** The longest run of decimal digits at the start of `s`. */
  function LeadingDigits(s: string): (r: string)
    ensures r <= s && AllDigits(r)
    ensures |r| < |s| ==> !IsDigit(s[|r|])
    decreases |s|
  {
    if |s| > 0 && IsDigit(s[0]) then [s[0]] + LeadingDigits(s[1..]) else ""
  }

  /**
   * `parseInt(s, 10)`: skip leading whitespace, read an optional sign, then
   * the longest run of decimal digits; `None` stands for `NaN` (no digit).
   */
  function ParseInt(s: string): Option<int> {
    var t := TrimStart(s);
    var negative := |t| > 0 && t[0] == '-';
    var unsigned := if |t| > 0 && (t[0] == '-' || t[0] == '+') then t[1..] else t;
    var ds := LeadingDigits(unsigned);
    var v: int := if |ds| == 0 then 0 else DigitsValue(ds);
    if |ds| == 0 then None
    else if negative then Some(-v)
    else Some(v)
  }

  lemma {:induction false} DigitsValueOfNatToString(n: nat)
    ensures DigitsValue(NatToString(n)) == n
    decreases n
  {
    var r := NatToString(n);
    if n >= 10 {
      DigitsValueOfNatToString(n / 10);
      assert r[..|r| - 1] == NatToString(n / 10);
    }
  }

  lemma {:induction false} LeadingDigitsOfDigits(s: string)
    requires AllDigits(s)
    ensures LeadingDigits(s) == s
    decreases |s|
  {
    if |s| > 0 {
      LeadingDigitsOfDigits(s[1..]);
    }
  }

  /** Reading back a printed timestamp gives the timestamp. */
  lemma ParseIntOfNatToString(n: nat)
    ensures ParseInt(NatToString(n)) == Some(n)
  {
    var s := NatToString(n);
    assert IsDigit(s[0]) && !IsJsWhitespace(s[0]);
    assert TrimStartIndex(s, 0) == 0;
    assert TrimStart(s) == s;
    assert s[0] != '-' && s[0] != '+';
    LeadingDigitsOfDigits(s);
    assert LeadingDigits(s) == s;
    DigitsValueOfNatToString(n);
  }
}
