/** The Python `str` built-ins the engine relies on: `lower`, `isspace`,
    `isprintable`, `find`, `rfind`, `count`, `in`, `strip` and `rstrip('/')`.
    Strings are sequences of code points. */
module PyStr {

  /** `c.lower()` restricted to one code point in, one code point out (ASCII
      letters are folded; every other character is left as it is). */
  function LowerChar(c: char): char {
    if 'A' <= c <= 'Z' then (c as int + 32) as char else c
  }

  /** `s.lower()`: same length, character by character. */
  function Lower(s: string): (r: string)
    ensures |r| == |s|
    ensures forall i :: 0 <= i < |s| ==> r[i] == LowerChar(s[i])
  {
    seq(|s|, i requires 0 <= i < |s| => LowerChar(s[i]))
  }

  /** `c.isspace()`: the code points Python classifies as whitespace. */
  predicate IsSpace(c: char) {
    c == ' ' || InSpaceRanges(c as int, |SpaceRanges|)
  }

  /** The other code points of `str.isspace()`, as inclusive ranges. */
  const SpaceRanges: seq<(int, int)> :=
    [(9, 13), (28, 31), (0x85, 0x85), (0xA0, 0xA0), (0x1680, 0x1680),
     (0x2000, 0x200A), (0x2028, 0x2029), (0x202F, 0x202F), (0x205F, 0x205F), (0x3000, 0x3000)]

  /** `n` lies in one of the first `i` ranges. */
  predicate InSpaceRanges(n: int, i: nat)
    requires i <= |SpaceRanges|
  {
    i > 0 && (SpaceRanges[i - 1].0 <= n <= SpaceRanges[i - 1].1 || InSpaceRanges(n, i - 1))
  }

  /** The whitespace code points written out. */
  lemma SpaceCodes(c: char)
    ensures IsSpace(c) <==>
      var n := c as int;
      n == 32 || 9 <= n <= 13 || 28 <= n <= 31 || n == 0x85 || n == 0xA0 || n == 0x1680
      || 0x2000 <= n <= 0x200A || n == 0x2028 || n == 0x2029 || n == 0x202F || n == 0x205F || n == 0x3000
  {
    var n := c as int;
    assert InSpaceRanges(n, 10) <==> 0x3000 <= n <= 0x3000 || InSpaceRanges(n, 9);
    assert InSpaceRanges(n, 9) <==> 0x205F <= n <= 0x205F || InSpaceRanges(n, 8);
    assert InSpaceRanges(n, 8) <==> 0x202F <= n <= 0x202F || InSpaceRanges(n, 7);
    assert InSpaceRanges(n, 7) <==> 0x2028 <= n <= 0x2029 || InSpaceRanges(n, 6);
    assert InSpaceRanges(n, 6) <==> 0x2000 <= n <= 0x200A || InSpaceRanges(n, 5);
    assert InSpaceRanges(n, 5) <==> 0x1680 <= n <= 0x1680 || InSpaceRanges(n, 4);
    assert InSpaceRanges(n, 4) <==> 0xA0 <= n <= 0xA0 || InSpaceRanges(n, 3);
    assert InSpaceRanges(n, 3) <==> 0x85 <= n <= 0x85 || InSpaceRanges(n, 2);
    assert InSpaceRanges(n, 2) <==> 28 <= n <= 31 || InSpaceRanges(n, 1);
    assert InSpaceRanges(n, 1) <==> 9 <= n <= 13 || InSpaceRanges(n, 0);
  }

  /** `c.isprintable()`: the space is printable; control characters and every
      other whitespace character are not. */
  predicate IsPrintable(c: char) {
    c == ' ' || (!IsSpace(c) && !(c as int < 32) && !(127 <= c as int <= 159))
  }

  lemma LowerCharKeepsClass(c: char)
    ensures IsSpace(LowerChar(c)) == IsSpace(c)
    ensures (LowerChar(c) == '.') == (c == '.')
    ensures (LowerChar(c) == '/') == (c == '/')
  {
    SpaceCodes(c);
    SpaceCodes(LowerChar(c));
  }

  /** `t[i:j]` for `0 <= i <= j <= len(t)`, taken one character at a time. */
  function Slice(t: string, i: nat, j: nat): (r: string)
    requires i <= j <= |t|
    ensures |r| == j - i
    ensures forall m :: 0 <= m < |r| ==> r[m] == t[i + m]
    decreases j - i
  {
    if i == j then [] else Slice(t, i, j - 1) + [t[j - 1]]
  }

  /** `k` occurs in `t` starting at index `i`: `t[i:i + len(k)] == k`, character
      by character. */
  predicate OccursAt(t: string, k: string, i: int) {
    0 <= i && i + |k| <= |t| && forall m :: 0 <= m < |k| ==> t[i + m] == k[m]
  }

  /** `t.find(k, from)`: the least index at or after `from` where `k` occurs,
      or -1 when there is none. */
  function FindFrom(t: string, k: string, from: nat): (r: int)
    ensures r == -1 || (from <= r && OccursAt(t, k, r))
    ensures r == -1 ==> forall i :: from <= i ==> !OccursAt(t, k, i)
    ensures r != -1 ==> forall i :: from <= i < r ==> !OccursAt(t, k, i)
    decreases |t| - from
  {
    if from + |k| > |t| then -1
    else if OccursAt(t, k, from) then from
    else FindFrom(t, k, from + 1)
  }

  /** `t.find(k)`. */
  function Find(t: string, k: string): int {
    FindFrom(t, k, 0)
  }

  /** `k in t`. */
  predicate Contains(t: string, k: string) {
    Find(t, k) != -1
  }

  /** `t.rfind(c, 0, end)` for one character: the greatest index below `end`
      holding `c`, or -1. */
  function RFindChar(t: string, c: char, end: nat): (r: int)
    requires end <= |t|
    ensures -1 <= r < end
    ensures r >= 0 ==> t[r] == c
    ensures forall i :: r < i < end ==> t[i] != c
  {
    if end == 0 then -1
    else if t[end - 1] == c then end - 1
    else RFindChar(t, c, end - 1)
  }

  /** `t[from:].count(k)`: occurrences counted greedily from the left without
      overlap; an empty `k` is counted once per position, end included. */
  function CountFrom(t: string, k: string, from: nat): nat
    decreases |t| - from
  {
    if |k| == 0 then (if from <= |t| then |t| - from + 1 else 0)
    else if from + |k| > |t| then 0
    else if OccursAt(t, k, from) then 1 + CountFrom(t, k, from + |k|)
    else CountFrom(t, k, from + 1)
  }

  /** `t.count(k)`. */
  function Count(t: string, k: string): nat {
    CountFrom(t, k, 0)
  }

  /** A positive count and a successful `find` go together. */
  lemma {:induction false} CountPositiveIffFound(t: string, k: string, from: nat)
    ensures CountFrom(t, k, from) > 0 <==> FindFrom(t, k, from) != -1
    decreases |t| - from
  {
    if |k| == 0 || from + |k| > |t| || OccursAt(t, k, from) {
    } else {
      CountPositiveIffFound(t, k, from + 1);
    }
  }

  /** The occurrences counted do not overlap: together they fit in what is left
      of `t`. */
  lemma {:induction false} CountedOccurrencesFit(t: string, k: string, from: nat)
    requires |k| > 0
    requires from <= |t|
    ensures CountFrom(t, k, from) * |k| <= |t| - from
    decreases |t| - from
  {
    if from + |k| > |t| {
    } else if OccursAt(t, k, from) {
      CountedOccurrencesFit(t, k, from + |k|);
    } else {
      CountedOccurrencesFit(t, k, from + 1);
    }
  }

  /** The first index at or after `i` whose character is not whitespace, or
      `|s|` when there is none. */
  function FirstNonSpace(s: string, i: nat): (k: nat)
    requires i <= |s|
    ensures i <= k <= |s|
    ensures forall j :: i <= j < k ==> IsSpace(s[j])
    ensures k < |s| ==> !IsSpace(s[k])
    decreases |s| - i
  {
    if i < |s| && IsSpace(s[i]) then FirstNonSpace(s, i + 1) else i
  }

  /** `s.lstrip()`: the suffix left after dropping leading whitespace. */
  function StripLeft(s: string): (r: string)
    ensures |r| == |s| - FirstNonSpace(s, 0)
    ensures forall i :: 0 <= i < |s| - |r| ==> IsSpace(s[i])
    ensures forall i :: 0 <= i < |r| ==> r[i] == s[FirstNonSpace(s, 0) + i]
    ensures r != [] ==> !IsSpace(r[0])
  {
    Slice(s, FirstNonSpace(s, 0), |s|)
  }

  /** The index just past the last character before `j` that is not
      whitespace, or 0 when there is none. */
  function EndNonSpace(s: string, j: nat): (e: nat)
    requires j <= |s|
    ensures e <= j
    ensures forall i :: e <= i < j ==> IsSpace(s[i])
    ensures e > 0 ==> !IsSpace(s[e - 1])
  {
    if j > 0 && IsSpace(s[j - 1]) then EndNonSpace(s, j - 1) else j
  }

  /** `s.rstrip()`: the prefix left after dropping trailing whitespace. */
  function StripRight(s: string): (r: string)
    ensures |r| == EndNonSpace(s, |s|)
    ensures forall i :: 0 <= i < |r| ==> r[i] == s[i]
    ensures forall i :: |r| <= i < |s| ==> IsSpace(s[i])
    ensures r != [] ==> !IsSpace(r[|r| - 1])
  {
    Slice(s, 0, EndNonSpace(s, |s|))
  }

  /** `s.strip()`. */
  function Strip(s: string): (r: string)
    ensures |r| <= |s|
    ensures r != [] ==> !IsSpace(r[0]) && !IsSpace(r[|r| - 1])
    ensures r == [] <==> forall i :: 0 <= i < |s| ==> IsSpace(s[i])
  {
    StripRight(StripLeft(s))
  }

  /** The stripped string is the slice of `s` between the leading and the
      trailing whitespace. */
  lemma StripIsSlice(s: string)
    ensures var k := FirstNonSpace(s, 0);
      k + |Strip(s)| <= |s| && Strip(s) == s[k..k + |Strip(s)|]
      && forall i :: k + |Strip(s)| <= i < |s| ==> IsSpace(s[i])
  {
    var k := FirstNonSpace(s, 0);
    assert forall i :: 0 <= i < |Strip(s)| ==> Strip(s)[i] == StripLeft(s)[i];
    forall i | k + |Strip(s)| <= i < |s| ensures IsSpace(s[i]) {
      assert StripLeft(s)[i - k] == s[i];
    }
  }

  /** A one-character needle occurs exactly where that character stands. */
  lemma OccursAtChar(t: string, c: char, i: int)
    ensures OccursAt(t, [c], i) <==> 0 <= i < |t| && t[i] == c
  {
    if OccursAt(t, [c], i) {
      assert t[i + 0] == [c][0];
    }
  }

  /** `p.rstrip('/')`. */
  function RStripSlash(p: string): (r: string)
    ensures |r| <= |p| && r == p[..|r|]
    ensures forall i :: |r| <= i < |p| ==> p[i] == '/'
    ensures r != [] ==> r[|r| - 1] != '/'
  {
    if p != [] && p[|p| - 1] == '/' then RStripSlash(p[..|p| - 1]) else p
  }
}
