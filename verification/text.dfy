/**
 Character classes and string helpers shared by the FAQ parser, the listing
 code and the plugin-group manager.
 */
module Text {

  /**
   Python's `\s` on a `str` pattern: exactly the characters for which
   `str.isspace()` holds.
   */
  predicate IsSpace(c: char) {
    || ('\t' <= c <= '\r')
    || ('\U{1C}' <= c <= '\U{1F}')
    || c == ' ' || c == '\U{85}' || c == '\U{A0}' || c == '\U{1680}'
    || ('\U{2000}' <= c <= '\U{200A}')
    || c == '\U{2028}' || c == '\U{2029}' || c == '\U{202F}' || c == '\U{205F}'
    || c == '\U{3000}'
  }

  /** Every character matches `[^\s]`. */
  predicate NoSpace(s: string) {
    forall i :: 0 <= i < |s| ==> !IsSpace(s[i])
  }

  /** Every character matches `\s`. */
  predicate AllSpace(s: string) {
    forall i :: 0 <= i < |s| ==> IsSpace(s[i])
  }

  /** Length of the longest prefix matching `[^\s]*`. */
  function TokenLength(s: string): (n: nat)
    ensures n <= |s|
    ensures NoSpace(s[..n])
    ensures n < |s| ==> IsSpace(s[n])
  {
    if |s| == 0 || IsSpace(s[0]) then 0
    else
      var n := 1 + TokenLength(s[1..]);
      assert s[..n] == [s[0]] + s[1..][..n - 1];
      n
  }

  /** Length of the longest prefix matching `\s*`. */
  function SpaceLength(s: string): (n: nat)
    ensures n <= |s|
    ensures AllSpace(s[..n])
    ensures n < |s| ==> !IsSpace(s[n])
  {
    if |s| == 0 || !IsSpace(s[0]) then 0
    else
      var n := 1 + SpaceLength(s[1..]);
      assert s[..n] == [s[0]] + s[1..][..n - 1];
      n
  }

  /** The token length of a space-free word followed by nothing or by a space is the word's length. */
  lemma TokenLengthOfWord(k: string, rest: string)
    requires NoSpace(k)
    requires |rest| == 0 || IsSpace(rest[0])
    ensures TokenLength(k + rest) == |k|
  {
    if |k| > 0 {
      assert (k + rest)[0] == k[0];
      assert (k + rest)[1..] == k[1..] + rest;
      assert NoSpace(k[1..]) by {
        forall i | 0 <= i < |k[1..]| ensures !IsSpace(k[1..][i]) {
          assert k[1..][i] == k[i + 1];
        }
      }
      TokenLengthOfWord(k[1..], rest);
    } else {
      assert k + rest == rest;
    }
  }

  /** The space length of a run of spaces followed by nothing or by a non-space is the run's length. */
  lemma SpaceLengthOfRun(w: string, rest: string)
    requires AllSpace(w)
    requires |rest| == 0 || !IsSpace(rest[0])
    ensures SpaceLength(w + rest) == |w|
  {
    if |w| > 0 {
      assert (w + rest)[1..] == w[1..] + rest;
      SpaceLengthOfRun(w[1..], rest);
    } else {
      assert w + rest == rest;
    }
  }

  /** ASCII `str.lower()` of one character. */
  function LowerChar(c: char): (d: char)
    ensures 'A' <= c <= 'Z' ==> 'a' <= d <= 'z'
    ensures !('A' <= c <= 'Z') ==> d == c
  {
    if 'A' <= c <= 'Z' then (c as int - 'A' as int + 'a' as int) as char else c
  }

  /** ASCII `str.lower()`: lowers each character independently. */
  function Lower(s: string): (r: string)
    ensures |r| == |s|
    ensures forall i :: 0 <= i < |s| ==> r[i] == LowerChar(s[i])
  {
    if |s| == 0 then [] else [LowerChar(s[0])] + Lower(s[1..])
  }

  /** Python's `<=` on strings: lexicographic by code point, a prefix first. */
  predicate LexLe(a: string, b: string) {
    |a| == 0 || (|b| > 0 && (a[0] < b[0] || (a[0] == b[0] && LexLe(a[1..], b[1..]))))
  }

  /** Any two strings are ordered one way or the other. */
  lemma {:induction false} LexLeTotal(a: string, b: string)
    ensures LexLe(a, b) || LexLe(b, a)
  {
    if |a| > 0 && |b| > 0 && a[0] == b[0] {
      LexLeTotal(a[1..], b[1..]);
    }
  }

  /** String order is transitive. */
  lemma {:induction false} LexLeTransitive(a: string, b: string, c: string)
    requires LexLe(a, b) && LexLe(b, c)
    ensures LexLe(a, c)
  {
    if |a| > 0 && |b| > 0 && |c| > 0 && a[0] == b[0] && b[0] == c[0] {
      LexLeTransitive(a[1..], b[1..], c[1..]);
    }
  }

  /** `sep.join(parts)`. */
  function Join(parts: seq<string>, sep: string): string
  {
    if |parts| == 0 then ""
    else if |parts| == 1 then parts[0]
    else parts[0] + sep + Join(parts[1..], sep)
  }

  /** The accumulation `acc += p + suffix` over the parts. */
  function SuffixEach(parts: seq<string>, suffix: string): (r: string)
    ensures |r| >= |parts| * |suffix|
  {
    if |parts| == 0 then "" else parts[0] + suffix + SuffixEach(parts[1..], suffix)
  }

  /** Python's `s[:-1]`: drops the last character, and leaves `''` as it is. */
  function DropLast(s: string): (r: string)
    ensures |s| > 0 ==> |r| == |s| - 1 && s == r + [s[|s| - 1]]
    ensures |s| == 0 ==> r == s
  {
    if |s| == 0 then s else s[..|s| - 1]
  }

  /**
   Appending a one-character separator after every part and dropping the last
   character is the same as joining the parts with that separator.
   */
  lemma {:induction false} DropLastSuffixEachIsJoin(parts: seq<string>, sep: char)
    ensures DropLast(SuffixEach(parts, [sep])) == Join(parts, [sep])
  {
    if |parts| == 0 {
    } else if |parts| == 1 {
      assert SuffixEach(parts, [sep]) == parts[0] + [sep];
      assert (parts[0] + [sep])[..|parts[0]|] == parts[0];
    } else {
      var tail := SuffixEach(parts[1..], [sep]);
      DropLastSuffixEachIsJoin(parts[1..], sep);
      assert |tail| > 0;
      var whole := parts[0] + [sep] + tail;
      assert SuffixEach(parts, [sep]) == whole;
      assert DropLast(whole) == parts[0] + [sep] + DropLast(tail);
    }
  }
}
