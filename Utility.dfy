/**
 * `UtiltityService.splitInTwo` of the client application
 * (Weekday/ClientApp/src/app/services/utility.service.ts:18-29): split a
 * text at the first occurrence of a separator and trim both halves.
 * Strings are sequences of characters; `trim` removes the ECMAScript
 * white-space and line-terminator characters.
 */
module Utility {
  import opened Wrappers

  /** The result object `{ firstPart, secondPart }`; `secondPart` is null when there is no separator. */
  datatype Parts = Parts(firstPart: string, secondPart: Option<string>)

  /** The characters `String.prototype.trim` removes: ECMAScript WhiteSpace and LineTerminator. */
  predicate IsWhitespace(c: char) {
    || c == '\t' || c == '\n' || c == '\U{000B}' || c == '\U{000C}' || c == '\r' || c == ' '
    || c == '\U{00A0}' || c == '\U{1680}' || ('\U{2000}' <= c <= '\U{200A}')
    || c == '\U{2028}' || c == '\U{2029}' || c == '\U{202F}' || c == '\U{205F}'
    || c == '\U{3000}' || c == '\U{FEFF}'
  }

  /** Neither end of `s` is white space. */
  predicate Unpadded(s: string) {
    s == [] || (!IsWhitespace(s[0]) && !IsWhitespace(s[|s| - 1]))
  }

  /** `sep` occurs in `text` starting at index `i`. */
  predicate OccursAt(text: string, sep: string, i: int) {
    0 <= i && i + |sep| <= |text| && text[i..i + |sep|] == sep
  }

  /** The first index at or after `from` where `sep` occurs, or -1. */
  function IndexFrom(text: string, sep: string, from: nat): (r: int)
    ensures r == -1 ==> forall i {:trigger OccursAt(text, sep, i)} :: from <= i ==> !OccursAt(text, sep, i)
    ensures r != -1 ==> from <= r && OccursAt(text, sep, r)
    ensures r != -1 ==> forall i {:trigger OccursAt(text, sep, i)} :: from <= i < r ==> !OccursAt(text, sep, i)
    decreases |text| - from
  {
    if from + |sep| > |text| then -1
    else if text[from..from + |sep|] == sep then from
    else IndexFrom(text, sep, from + 1)
  }

  /** `text.indexOf(separator)`: the first occurrence, or -1; the empty separator occurs at 0. */
  function IndexOf(text: string, sep: string): int {
    IndexFrom(text, sep, 0)
  }

  /** The number of white-space characters at the front of `s`. */
  function LeadingWhitespace(s: string): (n: nat)
    ensures n <= |s|
    ensures n < |s| ==> !IsWhitespace(s[n])
    decreases |s|
  {
    if s != [] && IsWhitespace(s[0]) then 1 + LeadingWhitespace(s[1..]) else 0
  }

  /** The number of white-space characters at the back of `s`. */
  function TrailingWhitespace(s: string): (n: nat)
    ensures n <= |s|
    ensures n < |s| ==> !IsWhitespace(s[|s| - 1 - n])
    decreases |s|
  {
    if s != [] && IsWhitespace(s[|s| - 1]) then 1 + TrailingWhitespace(s[..|s| - 1]) else 0
  }

  /** Only white space is counted at the front. */
  lemma {:induction false} LeadingAreWhitespace(s: string)
    ensures forall i :: 0 <= i < LeadingWhitespace(s) ==> IsWhitespace(s[i])
    decreases |s|
  {
    if s != [] && IsWhitespace(s[0]) {
      LeadingAreWhitespace(s[1..]);
      forall i | 1 <= i < LeadingWhitespace(s) ensures IsWhitespace(s[i]) {
        assert s[i] == s[1..][i - 1];
      }
    }
  }

  /** Only white space is counted at the back. */
  lemma {:induction false} TrailingAreWhitespace(s: string)
    ensures forall i :: |s| - TrailingWhitespace(s) <= i < |s| ==> IsWhitespace(s[i])
    decreases |s|
  {
    if s != [] && IsWhitespace(s[|s| - 1]) {
      TrailingAreWhitespace(s[..|s| - 1]);
      forall i | |s| - TrailingWhitespace(s) <= i < |s| - 1 ensures IsWhitespace(s[i]) {
        assert s[i] == s[..|s| - 1][i];
      }
    }
  }

  /** `s.trimStart()`: leading white space dropped. */
  function TrimStart(s: string): (r: string)
    ensures r == [] || !IsWhitespace(r[0])
  {
    s[LeadingWhitespace(s)..]
  }

  /** `s.trimEnd()`: trailing white space dropped. */
  function TrimEnd(s: string): (r: string)
    ensures r == [] || !IsWhitespace(r[|r| - 1])
  {
    s[..|s| - TrailingWhitespace(s)]
  }

  /** `s.trim()`: white space cut from both ends. */
  function Trim(s: string): (r: string)
    ensures Unpadded(r)
  {
    var t := TrimStart(s);
    var r := TrimEnd(t);
    assert r != [] ==> r[0] == t[0];
    r
  }

  /**
   * The trimmed string is the infix of `s` between its leading white space
   * and the trailing white space of the rest.
   */
  lemma TrimIsInfix(s: string)
    ensures var lo := LeadingWhitespace(s);
      lo + |Trim(s)| <= |s| && Trim(s) == s[lo..lo + |Trim(s)|]
  {
    var lo := LeadingWhitespace(s);
    var t := s[lo..];
    assert TrimStart(s) == t;
    var r := t[..|t| - TrailingWhitespace(t)];
    assert Trim(s) == r;
    assert r == s[lo..lo + |r|];
  }

  /** Everything of `s` outside its trimmed infix is white space, and nothing else is removed. */
  lemma TrimDropsOnlyWhitespace(s: string)
    ensures var lo := LeadingWhitespace(s);
      && (forall i :: 0 <= i < lo ==> IsWhitespace(s[i]))
      && (forall i :: lo + |Trim(s)| <= i < |s| ==> IsWhitespace(s[i]))
  {
    var lo := LeadingWhitespace(s);
    var t := s[lo..];
    assert TrimStart(s) == t;
    var r := t[..|t| - TrailingWhitespace(t)];
    assert Trim(s) == r;
    LeadingAreWhitespace(s);
    TrailingAreWhitespace(t);
    forall i | lo + |r| <= i < |s| ensures IsWhitespace(s[i]) {
      assert s[i] == t[i - lo];
    }
  }

  /** `text.substr(start)` for `start >= 0`: from `start` to the end, or empty past the end. */
  function Substr(text: string, start: nat): string {
    if start <= |text| then text[start..] else ""
  }

  /** `splitInTwo(text, separator)`. */
  function SplitInTwo(text: string, sep: string): Parts {
    var separatorIndex := IndexOf(text, sep);
    if separatorIndex == -1 then Parts(text, None)
    else Parts(Trim(text[..separatorIndex]), Some(Trim(Substr(text, separatorIndex + 1))))
  }

  /** Without an occurrence of the separator the text comes back whole and untrimmed, with no second part; with one, there is a second part. */
  lemma SplitWithoutSeparator(text: string, sep: string)
    ensures (forall i :: !OccursAt(text, sep, i)) <==> SplitInTwo(text, sep) == Parts(text, None)
  {
    if forall i :: !OccursAt(text, sep, i) {
    } else {
      var i :| OccursAt(text, sep, i);
      assert IndexOf(text, sep) != -1;
    }
  }

  /**
   * At the first occurrence `k` of the separator: the first part is the
   * trimmed text before `k`, which holds no occurrence of the separator; the
   * second part is the trimmed text from `k + 1`, one character past the
   * match, however long the separator is.
   */
  lemma SplitAtFirstOccurrence(text: string, sep: string, k: nat)
    requires OccursAt(text, sep, k)
    requires forall i :: 0 <= i < k ==> !OccursAt(text, sep, i)
    ensures SplitInTwo(text, sep) == Parts(Trim(text[..k]), Some(Trim(Substr(text, k + 1))))
    ensures sep != [] ==> forall i :: !OccursAt(text[..k], sep, i)
  {
    IndexOfFirst(text, sep, k);
    if sep != [] {
      forall i | OccursAt(text[..k], sep, i) ensures false {
        assert text[..k][i..i + |sep|] == text[i..i + |sep|];
        assert OccursAt(text, sep, i);
      }
    }
  }

  /** `IndexOf` finds the first occurrence. */
  lemma IndexOfFirst(text: string, sep: string, k: nat)
    requires OccursAt(text, sep, k)
    requires forall i :: 0 <= i < k ==> !OccursAt(text, sep, i)
    ensures IndexOf(text, sep) == k
  {
  }

  /** When the separator is found neither part starts or ends with white space. */
  lemma SplitPartsAreTrimmed(text: string, sep: string)
    requires SplitInTwo(text, sep).secondPart.Some?
    ensures Unpadded(SplitInTwo(text, sep).firstPart)
    ensures Unpadded(SplitInTwo(text, sep).secondPart.value)
  {
  }

  /**
   * Round trip for a one-character separator: joining a prefix free of it,
   * the separator and any suffix, then splitting, gives back the trimmed
   * prefix and the trimmed suffix.
   */
  lemma {:induction false} SplitRoundTrip(prefix: string, sep: char, suffix: string)
    requires sep !in prefix
    ensures SplitInTwo(prefix + [sep] + suffix, [sep]) == Parts(Trim(prefix), Some(Trim(suffix)))
  {
    var text := prefix + [sep] + suffix;
    var k := |prefix|;
    assert text[k..k + 1] == [sep];
    forall i | 0 <= i < k ensures !OccursAt(text, [sep], i) {
      assert text[i] == prefix[i];
    }
    SplitAtFirstOccurrence(text, [sep], k);
    assert text[..k] == prefix && Substr(text, k + 1) == suffix;
  }

  /** Conversely, when a one-character separator occurs, the split cuts the text into prefix, separator and suffix. */
  lemma SplitDecomposes(text: string, sep: char)
    requires sep in text
    ensures var k := IndexOf(text, [sep]);
      && 0 <= k < |text|
      && text == text[..k] + [sep] + text[k + 1..]
      && sep !in text[..k]
      && SplitInTwo(text, [sep]) == Parts(Trim(text[..k]), Some(Trim(text[k + 1..])))
  {
    var j :| 0 <= j < |text| && text[j] == sep;
    assert text[j..j + 1] == [sep];
    assert OccursAt(text, [sep], j);
    var k := IndexOf(text, [sep]);
    assert OccursAt(text, [sep], k);
    assert text[k] == sep by { assert text[k..k + 1][0] == text[k]; }
    assert text == text[..k] + [sep] + text[k + 1..];
    if sep in text[..k] {
      var i :| 0 <= i < k && text[..k][i] == sep;
      assert text[i..i + 1] == [sep];
      assert OccursAt(text, [sep], i);
    }
    SplitAtFirstOccurrence(text, [sep], k);
    assert Substr(text, k + 1) == text[k + 1..];
  }

  /**
   * The second part starts one character after the match whatever the
   * separator's length: the separator's tail stays in it.
   */
  lemma SplitSkipsOneCharacter(prefix: string, sep: string, suffix: string)
    requires |sep| >= 1
    requires forall i :: 0 <= i < |prefix| ==> !OccursAt(prefix + sep + suffix, sep, i)
    ensures SplitInTwo(prefix + sep + suffix, sep).secondPart == Some(Trim(sep[1..] + suffix))
  {
    var text := prefix + sep + suffix;
    var k := |prefix|;
    assert text[k..k + |sep|] == sep;
    SplitAtFirstOccurrence(text, sep, k);
    assert Substr(text, k + 1) == sep[1..] + suffix;
  }
}
