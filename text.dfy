/**
 * The string operations of Python's `str` that the mail-merge script relies on:
 * `strip`, `lower`, `replace`, `split`, `join` and the decimal formatting of an
 * `int` inside an f-string. Strings are sequences of Unicode scalar values.
 */
module Text {

  /** Python's `str.isspace` for a single character (the characters `str.strip()` removes). */
  predicate IsSpace(c: char) {
    var n := c as int;
    || 0x09 <= n <= 0x0D
    || 0x1C <= n <= 0x20
    || n == 0x85 || n == 0xA0 || n == 0x1680
    || 0x2000 <= n <= 0x200A
    || n == 0x2028 || n == 0x2029 || n == 0x202F || n == 0x205F || n == 0x3000
  }

  /** The index of the first non-space character (`|s|` when there is none). */
  function ContentStart(s: string): (i: nat)
    ensures i <= |s|
  {
    if s != [] && IsSpace(s[0]) then 1 + ContentStart(s[1..]) else 0
  }

  /** The index just past the last non-space character (0 when there is none). */
  function ContentEnd(s: string): (j: nat)
    ensures j <= |s|
  {
    if s != [] && IsSpace(s[|s| - 1]) then ContentEnd(s[..|s| - 1]) else |s|
  }

  /** Everything before `ContentStart(s)` is whitespace, and the character there is not. */
  lemma {:induction false} ContentStartIsFirstNonSpace(s: string)
    ensures forall k :: 0 <= k < ContentStart(s) ==> IsSpace(s[k])
    ensures ContentStart(s) == |s| || !IsSpace(s[ContentStart(s)])
  {
    if s != [] && IsSpace(s[0]) {
      ContentStartIsFirstNonSpace(s[1..]);
    }
  }

  /** Everything from `ContentEnd(s)` on is whitespace, and the character before it is not. */
  lemma {:induction false} ContentEndIsLastNonSpace(s: string)
    ensures forall k :: ContentEnd(s) <= k < |s| ==> IsSpace(s[k])
    ensures ContentEnd(s) == 0 || !IsSpace(s[ContentEnd(s) - 1])
  {
    if s != [] && IsSpace(s[|s| - 1]) {
      ContentEndIsLastNonSpace(s[..|s| - 1]);
    }
  }

  /** Python's `s.strip()`: the text between the leading and the trailing whitespace. */
  function Trim(s: string): string {
    var i := ContentStart(s);
    var j := ContentEnd(s);
    if i < j then s[i..j] else []
  }

  predicate AllSpace(s: string) {
    forall k :: 0 <= k < |s| ==> IsSpace(s[k])
  }

  /** `r` is `s[i..]` cut to `|r|` characters, and everything around it in `s` is whitespace. */
  predicate IsSpaceFramedSlice(s: string, r: string, i: int) {
    && 0 <= i <= |s| - |r|
    && r == s[i..i + |r|]
    && (forall k :: 0 <= k < i ==> IsSpace(s[k]))
    && (forall k :: i + |r| <= k < |s| ==> IsSpace(s[k]))
  }

  /**
   * `strip()` keeps exactly the middle of its input: it is a slice of `s` that
   * neither starts nor ends with whitespace, and everything cut off is whitespace.
   * It is empty exactly when `s` is whitespace only.
   */
  lemma TrimIsSlice(s: string)
    ensures exists i :: IsSpaceFramedSlice(s, Trim(s), i)
    ensures Trim(s) == [] || (!IsSpace(Trim(s)[0]) && !IsSpace(Trim(s)[|Trim(s)| - 1]))
    ensures Trim(s) == [] <==> AllSpace(s)
  {
    ContentStartIsFirstNonSpace(s);
    ContentEndIsLastNonSpace(s);
    var i, j := ContentStart(s), ContentEnd(s);
    if i < j {
      assert IsSpaceFramedSlice(s, Trim(s), i);
      assert !AllSpace(s) by { assert !IsSpace(s[i]); }
    } else {
      assert IsSpaceFramedSlice(s, Trim(s), 0);
    }
  }

  /** `strip()` leaves a string that neither starts nor ends with whitespace unchanged. */
  lemma TrimUntrimmed(s: string)
    requires s == [] || (!IsSpace(s[0]) && !IsSpace(s[|s| - 1]))
    ensures Trim(s) == s
  {
    ContentStartIsFirstNonSpace(s);
    ContentEndIsLastNonSpace(s);
  }

  /** `strip()` of content framed by whitespace is that content. */
  lemma TrimFramed(before: string, value: string, after: string)
    requires AllSpace(before) && AllSpace(after)
    requires value == [] || (!IsSpace(value[0]) && !IsSpace(value[|value| - 1]))
    ensures Trim(before + value + after) == value
  {
    var s := before + value + after;
    if value == [] {
      assert s == before + after;
      TrimIsSlice(s);
    } else {
      assert !IsSpace(s[|before|]) && !IsSpace(s[|before| + |value| - 1]);
      ContentStartIsFirstNonSpace(s);
      ContentEndIsLastNonSpace(s);
      assert ContentStart(s) == |before|;
      assert ContentEnd(s) == |before| + |value|;
      assert s[|before|..|before| + |value|] == value;
    }
  }

  /** `str.lower()` on one character; only the ASCII letters `A`-`Z` are mapped. */
  function LowerChar(c: char): char {
    if 'A' <= c <= 'Z' then (c as int + 32) as char else c
  }

  /** `str.lower()`: the ASCII case mapping applied to every character. */
  function Lower(s: string): (r: string)
    ensures |r| == |s|
    ensures forall k :: 0 <= k < |s| ==> r[k] == LowerChar(s[k])
  {
    seq(|s|, k requires 0 <= k < |s| => LowerChar(s[k]))
  }

  /** `lower()` leaves no ASCII capital behind, so lowering twice is lowering once. */
  lemma LowerNormalises(s: string)
    ensures forall k :: 0 <= k < |s| ==> !('A' <= Lower(s)[k] <= 'Z')
    ensures Lower(Lower(s)) == Lower(s)
  {
  }

  /** `pat` occurs in `s` starting at index `i`. */
  predicate OccursAt(s: string, pat: string, i: int) {
    0 <= i && i + |pat| <= |s| && s[i..i + |pat|] == pat
  }

  predicate Contains(s: string, pat: string) {
    exists i :: 0 <= i <= |s| && OccursAt(s, pat, i)
  }

  /**
   * Python's `s.replace(pat, rep)`: scanning left to right, every occurrence of
   * `pat` that does not overlap an earlier replaced one becomes `rep`.
   * The script only replaces tokens `{{name}}`, which are never empty.
   */
  function ReplaceAll(s: string, pat: string, rep: string): string
    requires |pat| > 0
    decreases |s|
  {
    if |s| < |pat| then s
    else if s[..|pat|] == pat then rep + ReplaceAll(s[|pat|..], pat, rep)
    else [s[0]] + ReplaceAll(s[1..], pat, rep)
  }

  /** A string in which the pattern does not occur passes through `replace` verbatim. */
  lemma {:induction false} ReplaceAllAbsent(s: string, pat: string, rep: string)
    requires |pat| > 0
    requires !Contains(s, pat)
    ensures ReplaceAll(s, pat, rep) == s
  {
    if |s| >= |pat| {
      assert !OccursAt(s, pat, 0);
      assert s[..|pat|] != pat;
      forall i | OccursAt(s[1..], pat, i) ensures false {
        assert s[1..][i..i + |pat|] == s[i + 1..i + 1 + |pat|];
        assert OccursAt(s, pat, i + 1);
      }
      ReplaceAllAbsent(s[1..], pat, rep);
      assert s == [s[0]] + s[1..];
    }
  }

  /** Replacing a pattern by itself changes nothing. */
  lemma {:induction false} ReplaceAllSelf(s: string, pat: string)
    requires |pat| > 0
    ensures ReplaceAll(s, pat, pat) == s
    decreases |s|
  {
    if |s| >= |pat| {
      if s[..|pat|] == pat {
        ReplaceAllSelf(s[|pat|..], pat);
        assert s == s[..|pat|] + s[|pat|..];
      } else {
        ReplaceAllSelf(s[1..], pat);
        assert s == [s[0]] + s[1..];
      }
    }
  }

  /** A stretch in which the pattern's first character never appears is copied through. */
  lemma {:induction false} ReplaceAllSkip(a: string, b: string, pat: string, rep: string)
    requires |pat| > 0 && pat[0] !in a
    ensures ReplaceAll(a + b, pat, rep) == a + ReplaceAll(b, pat, rep)
  {
    FirstCharAbsentNoEarlyMatch(a, b, pat);
    ReplaceAllNoEarlyMatch(a, b, pat, rep);
  }

  /** An occurrence at the very start is replaced and the scan resumes after it. */
  lemma {:induction false} ReplaceAllAtStart(pat: string, b: string, rep: string)
    requires |pat| > 0
    ensures ReplaceAll(pat + b, pat, rep) == rep + ReplaceAll(b, pat, rep)
  {
    assert (pat + b)[..|pat|] == pat;
    assert (pat + b)[|pat|..] == b;
  }

  /** No occurrence of `pat` in `s` starts before index `n`. */
  predicate NoMatchBefore(s: string, pat: string, n: int) {
    forall i :: 0 <= i < n ==> !OccursAt(s, pat, i)
  }

  /** A stretch at whose positions no occurrence of the pattern starts is copied through. */
  lemma {:induction false} ReplaceAllNoEarlyMatch(a: string, b: string, pat: string, rep: string)
    requires |pat| > 0
    requires NoMatchBefore(a + b, pat, |a|)
    ensures ReplaceAll(a + b, pat, rep) == a + ReplaceAll(b, pat, rep)
    decreases |a|
  {
    if a == [] {
      assert a + b == b;
    } else {
      var s := a + b;
      assert s[1..] == a[1..] + b;
      forall i | 0 <= i < |a[1..]| ensures !OccursAt(a[1..] + b, pat, i) {
        assert !OccursAt(s, pat, i + 1);
        if i + |pat| <= |s[1..]| {
          assert s[1..][i..i + |pat|] == s[i + 1..i + 1 + |pat|];
        }
      }
      ReplaceAllNoEarlyMatch(a[1..], b, pat, rep);
      if |s| >= |pat| {
        assert !OccursAt(s, pat, 0);
        assert ReplaceAll(s, pat, rep) == [a[0]] + ReplaceAll(s[1..], pat, rep);
      }
      assert a == [a[0]] + a[1..];
    }
  }

  /** The pattern starts nowhere in a stretch that lacks its first character. */
  lemma FirstCharAbsentNoEarlyMatch(pre: string, rest: string, pat: string)
    requires |pat| > 0 && pat[0] !in pre
    ensures NoMatchBefore(pre + rest, pat, |pre|)
  {
    forall i | 0 <= i < |pre| ensures !OccursAt(pre + rest, pat, i) {
      if i + |pat| <= |pre + rest| {
        assert (pre + rest)[i..i + |pat|][0] == pre[i];
      }
    }
  }

  /**
   * A text whose first occurrence of the pattern starts right after `pre`, and
   * with none in what follows it, has just that occurrence replaced.
   */
  lemma {:induction false} ReplaceAllSingle(pre: string, pat: string, post: string, rep: string)
    requires |pat| > 0
    requires NoMatchBefore(pre + pat + post, pat, |pre|)
    requires !Contains(post, pat)
    ensures ReplaceAll(pre + pat + post, pat, rep) == pre + rep + post
  {
    var s := pre + pat + post;
    assert s == pre + (pat + post);
    ReplaceAllNoEarlyMatch(pre, pat + post, pat, rep);
    ReplaceAllAtStart(pat, post, rep);
    ReplaceAllAbsent(post, pat, rep);
    assert ReplaceAll(s, pat, rep) == pre + (rep + post);
    assert pre + (rep + post) == pre + rep + post;
  }

  /** A pattern one of whose characters is missing from `s` does not occur in `s`. */
  lemma MissingCharNotContained(s: string, pat: string, k: nat)
    requires k < |pat| && pat[k] !in s
    ensures !Contains(s, pat)
  {
    forall i | 0 <= i <= |s| ensures !OccursAt(s, pat, i) {
      if i + |pat| <= |s| {
        assert s[i..i + |pat|][k] == s[i + k];
      }
    }
  }

  /** Python's `s.split(sep)` for a one-character separator: never empty, pieces free of `sep`. */
  function Split(s: string, sep: char): (r: seq<string>)
    ensures |r| >= 1
    ensures forall k :: 0 <= k < |r| ==> sep !in r[k]
    decreases |s|
  {
    if sep !in s then [s]
    else
      var i := IndexOf(s, sep);
      [s[..i]] + Split(s[i + 1..], sep)
  }

  /** The index of the first occurrence of `c` in `s`. */
  function IndexOf(s: string, c: char): (i: nat)
    requires c in s
    ensures i < |s| && s[i] == c && c !in s[..i]
  {
    if s[0] == c then 0 else 1 + IndexOf(s[1..], c)
  }

  /** Python's `sep.join(parts)`. */
  function Join(parts: seq<string>, sep: string): string {
    if |parts| == 0 then []
    else if |parts| == 1 then parts[0]
    else parts[0] + sep + Join(parts[1..], sep)
  }

  /** Joining the pieces of a split with the separator gives back the original string. */
  lemma {:induction false} JoinSplit(s: string, sep: char)
    ensures Join(Split(s, sep), [sep]) == s
    decreases |s|
  {
    if sep in s {
      var i := IndexOf(s, sep);
      var rest := Split(s[i + 1..], sep);
      JoinSplit(s[i + 1..], sep);
      assert Split(s, sep) == [s[..i]] + rest;
      assert s == s[..i] + [sep] + s[i + 1..];
    }
  }

  /** Splitting a join of `sep`-free pieces gives back the pieces. */
  lemma {:induction false} SplitJoin(parts: seq<string>, sep: char)
    requires |parts| >= 1
    requires forall k :: 0 <= k < |parts| ==> sep !in parts[k]
    ensures Split(Join(parts, [sep]), sep) == parts
  {
    if |parts| > 1 {
      var head, tail := parts[0], Join(parts[1..], [sep]);
      var s := head + [sep] + tail;
      assert Join(parts, [sep]) == s;
      assert s[..|head|] == head && s[|head|] == sep && s[|head| + 1..] == tail;
      IndexOfFirst(s, sep, |head|);
      SplitJoin(parts[1..], sep);
      calc {
        Split(s, sep);
        [s[..|head|]] + Split(s[|head| + 1..], sep);
        [head] + Split(tail, sep);
        [head] + parts[1..];
        parts;
      }
    }
  }

  lemma IndexOfFirst(s: string, c: char, i: nat)
    requires i < |s| && s[i] == c && c !in s[..i]
    ensures IndexOf(s, c) == i
  {
  }

  /** The decimal digit for `d`. */
  function DigitChar(d: nat): char
    requires d < 10
  {
    ['0', '1', '2', '3', '4', '5', '6', '7', '8', '9'][d]
  }

  /** The value of a decimal digit, the inverse of `DigitChar`. */
  function DigitValue(c: char): nat
    requires '0' <= c <= '9'
  {
    c as int - '0' as int
  }

  /** Python's `str(n)` for a natural number: decimal, most significant digit first. */
  function NatToString(n: nat): (r: string)
    ensures |r| >= 1
    ensures forall k :: 0 <= k < |r| ==> '0' <= r[k] <= '9'
    ensures r[0] == '0' ==> n == 0
  {
    if n < 10 then [DigitChar(n)] else NatToString(n / 10) + [DigitChar(n % 10)]
  }

  /** Python's `str(n)` (and `f"{n}"`) for any integer. */
  function IntToString(n: int): string {
    if n < 0 then "-" + NatToString(-n) else NatToString(n)
  }

  /** Reads a string of decimal digits back as a number. */
  function DigitsValue(s: string): nat
    requires forall k :: 0 <= k < |s| ==> '0' <= s[k] <= '9'
  {
    if s == [] then 0 else DigitsValue(s[..|s| - 1]) * 10 + DigitValue(s[|s| - 1])
  }

  /** Reading the decimal text of `n` gives back `n`. */
  lemma {:induction false} NatToStringRoundTrip(n: nat)
    ensures DigitsValue(NatToString(n)) == n
  {
    if n >= 10 {
      var s := NatToString(n);
      NatToStringRoundTrip(n / 10);
      assert s[..|s| - 1] == NatToString(n / 10);
    }
  }
}
