/** Text preparation of the v2 engine (msci-intelligence-v2.py): `clean_text`
    and `extract_context_snippet`. Both are pure expressions over strings. */
module MsciText {
  import opened Common
  import opened PyStr

  /** `re.sub(r'\s+', ' ', s)`, read left to right: a whitespace character
      becomes one space unless the character before it is whitespace too, so
      every maximal run of whitespace becomes a single space. */
  function CollapseWhitespace(s: string): (r: string)
    ensures |r| <= |s|
    ensures r == [] <==> s == []
    ensures s != [] && IsSpace(s[0]) ==> r[0] == ' '
    ensures s != [] && !IsSpace(s[0]) ==> r[0] == s[0]
    ensures s != [] && IsSpace(s[|s| - 1]) ==> r[|r| - 1] == ' '
    ensures s != [] && !IsSpace(s[|s| - 1]) ==> r[|r| - 1] == s[|s| - 1]
    ensures OnlyPlainBlanks(r)
    ensures NoDoubleSpace(r)
  {
    if s == [] then []
    else
      var p, c := s[..|s| - 1], s[|s| - 1];
      var done, step := CollapseWhitespace(p), CollapseStep(p, c);
      if step != [] then
        assert (done + step)[..|done + step| - 1] == done;
        done + step
      else done
  }

  /** No two whitespace characters of `s` stand side by side. */
  predicate NoDoubleSpace(s: string) {
    |s| < 2 || (!(IsSpace(s[|s| - 2]) && IsSpace(s[|s| - 1])) && NoDoubleSpace(s[..|s| - 1]))
  }

  /** What one more character `c` adds after `before` has been collapsed. */
  function CollapseStep(before: string, c: char): string {
    if !IsSpace(c) then [c]
    else if before != [] && IsSpace(before[|before| - 1]) then []
    else [' ']
  }

  lemma CollapseSnoc(s: string, c: char)
    ensures CollapseWhitespace(s + [c]) == CollapseWhitespace(s) + CollapseStep(s, c)
  {
    assert (s + [c])[..|s|] == s;
  }

  /** The only whitespace character in `s` is the plain space. */
  predicate OnlyPlainBlanks(s: string) {
    forall i :: 0 <= i < |s| && IsSpace(s[i]) ==> s[i] == ' '
  }

  /** The characters of `s` that are not whitespace, in order. */
  function NonSpace(s: string): string {
    if s == [] then []
    else
      var c := s[|s| - 1];
      NonSpace(s[..|s| - 1]) + (if IsSpace(c) then [] else [c])
  }

  lemma {:induction false} NonSpaceAppend(a: string, b: string)
    ensures NonSpace(a + b) == NonSpace(a) + NonSpace(b)
    decreases |b|
  {
    if b == [] {
      assert a + b == a;
    } else {
      assert (a + b)[..|a + b| - 1] == a + b[..|b| - 1];
      NonSpaceAppend(a, b[..|b| - 1]);
    }
  }

  /** Collapsing whitespace removes and rewrites only whitespace: the other
      characters survive unchanged and in order. */
  lemma {:induction false} CollapseKeepsNonSpace(s: string)
    ensures NonSpace(CollapseWhitespace(s)) == NonSpace(s)
  {
    if s != [] {
      var p, c := s[..|s| - 1], s[|s| - 1];
      CollapseKeepsNonSpace(p);
      var step := CollapseStep(p, c);
      NonSpaceAppend(CollapseWhitespace(p), step);
      assert NonSpace(step) == (if IsSpace(c) then [] else [c]) by {
        if step != [] {
          assert step[..0] == [];
        }
      }
    }
  }

  /** `''.join(c for c in s if c.isprintable() or c.isspace())`. */
  function KeepPrintable(s: string): (r: string)
    ensures |r| <= |s|
    ensures forall i :: 0 <= i < |r| ==> IsPrintable(r[i]) || IsSpace(r[i])
  {
    if s == [] then []
    else
      var c := s[|s| - 1];
      KeepPrintable(s[..|s| - 1]) + (if IsPrintable(c) || IsSpace(c) then [c] else [])
  }

  lemma KeepPrintableSnoc(s: string, c: char)
    ensures KeepPrintable(s + [c]) == KeepPrintable(s) + (if IsPrintable(c) || IsSpace(c) then [c] else [])
  {
    assert (s + [c])[..|s|] == s;
  }

  /** Filtering only removes characters, so when the only whitespace left is
      the plain space, that stays true. */
  lemma {:induction false} KeepPrintableKeepsBlanks(s: string)
    requires OnlyPlainBlanks(s)
    ensures OnlyPlainBlanks(KeepPrintable(s))
  {
    if s != [] {
      var p, c := s[..|s| - 1], s[|s| - 1];
      KeepPrintableKeepsBlanks(p);
      var r, rest := KeepPrintable(s), KeepPrintable(p);
      var tail := if IsPrintable(c) || IsSpace(c) then [c] else [];
      assert r == rest + tail;
      forall i | 0 <= i < |r| && IsSpace(r[i]) ensures r[i] == ' ' {
        if i < |rest| {
          assert r[i] == rest[i];
        } else {
          assert r[i] == c;
        }
      }
    }
  }

  /** `clean_text(s)` (msci-intelligence-v2.py:411-419): collapse whitespace,
      drop unprintable characters, strip. */
  function CleanText(s: string): (r: string)
    ensures |r| <= |s|
    ensures r != [] ==> !IsSpace(r[0]) && !IsSpace(r[|r| - 1])
    ensures OnlyPlainBlanks(r)
    ensures forall i :: 0 <= i < |r| ==> IsPrintable(r[i])
  {
    var collapsed := CollapseWhitespace(s);
    var kept := KeepPrintable(collapsed);
    KeepPrintableKeepsBlanks(collapsed);
    StripKeepsClean(kept);
    Strip(kept)
  }

  /** Stripping cuts out a slice, so a string of printable characters and plain
      spaces strips to one. */
  lemma StripKeepsClean(kept: string)
    requires OnlyPlainBlanks(kept)
    requires forall i :: 0 <= i < |kept| ==> IsPrintable(kept[i]) || IsSpace(kept[i])
    ensures OnlyPlainBlanks(Strip(kept))
    ensures forall i :: 0 <= i < |Strip(kept)| ==> IsPrintable(Strip(kept)[i])
  {
    StripIsSlice(kept);
    var k, r := FirstNonSpace(kept, 0), Strip(kept);
    forall i | 0 <= i < |r| ensures IsPrintable(r[i]) && (IsSpace(r[i]) ==> r[i] == ' ') {
      assert r[i] == kept[k + i];
    }
  }

  lemma {:induction false} KeepPrintableAppend(a: string, b: string)
    ensures KeepPrintable(a + b) == KeepPrintable(a) + KeepPrintable(b)
    decreases |b|
  {
    if b == [] {
      assert a + b == a;
    } else {
      assert (a + b)[..|a + b| - 1] == a + b[..|b| - 1];
      KeepPrintableAppend(a, b[..|b| - 1]);
    }
  }

  /** A string whose only whitespace is single plain spaces is already
      collapsed. */
  lemma {:induction false} CollapseKeepsClean(s: string)
    requires OnlyPlainBlanks(s) && NoDoubleSpace(s)
    ensures CollapseWhitespace(s) == s
  {
    if s != [] {
      var p, c := s[..|s| - 1], s[|s| - 1];
      assert OnlyPlainBlanks(p) by {
        forall i | 0 <= i < |p| && IsSpace(p[i]) ensures p[i] == ' ' {
          assert p[i] == s[i];
        }
      }
      CollapseKeepsClean(p);
      assert CollapseStep(p, c) == [c];
      assert p + [c] == s;
    }
  }

  /** Text that starts with a non-whitespace character collapses on its own,
      whatever comes before it. */
  lemma {:induction false} CollapseAppendWord(p: string, b: string)
    requires b == [] || !IsSpace(b[0])
    ensures CollapseWhitespace(p + b) == CollapseWhitespace(p) + CollapseWhitespace(b)
    decreases |b|
  {
    if b == [] {
      assert p + b == p;
    } else {
      var rest, c := b[..|b| - 1], b[|b| - 1];
      assert rest == [] || !IsSpace(rest[0]) by {
        if rest != [] { assert rest[0] == b[0]; }
      }
      AppendLast(p, b);
      CollapseAppendWord(p, rest);
      CollapseAppendWordStep(p, rest, c);
    }
  }

  /** One step of `CollapseAppendWord`: a character appended after `rest` is
      collapsed the same way whatever stands before `rest`. */
  lemma CollapseAppendWordStep(p: string, rest: string, c: char)
    requires rest == [] ==> !IsSpace(c)
    requires CollapseWhitespace(p + rest) == CollapseWhitespace(p) + CollapseWhitespace(rest)
    ensures CollapseWhitespace(p + rest + [c]) == CollapseWhitespace(p) + CollapseWhitespace(rest + [c])
  {
    var front := p + rest;
    assert CollapseStep(front, c) == CollapseStep(rest, c) by {
      if rest != [] {
        assert front[|front| - 1] == rest[|rest| - 1];
      }
    }
    CollapseSnoc(front, c);
    CollapseSnoc(rest, c);
    AppendAssoc(CollapseWhitespace(p), CollapseWhitespace(rest), CollapseStep(rest, c));
  }

  /** A run of whitespace after a word (or at the start) becomes exactly one
      space. */
  lemma {:induction false} CollapseAppendBlanks(a: string, w: string)
    requires a == [] || !IsSpace(a[|a| - 1])
    requires w != [] && forall i :: 0 <= i < |w| ==> IsSpace(w[i])
    ensures CollapseWhitespace(a + w) == CollapseWhitespace(a) + [' ']
    decreases |w|
  {
    var rest, c := w[..|w| - 1], w[|w| - 1];
    AppendLast(a, w);
    CollapseSnoc(a + rest, c);
    if rest == [] {
      assert a + rest == a;
    } else {
      assert (a + rest)[|a + rest| - 1] == w[|rest| - 1];
      CollapseAppendBlanks(a, rest);
    }
  }

  /** Words stay apart: a run of whitespace between two words becomes exactly
      one space, and the text on either side collapses on its own. */
  lemma CollapseWordBoundary(a: string, w: string, b: string)
    requires a == [] || !IsSpace(a[|a| - 1])
    requires w != [] && forall i :: 0 <= i < |w| ==> IsSpace(w[i])
    requires b == [] || !IsSpace(b[0])
    ensures CollapseWhitespace(a + w + b) == CollapseWhitespace(a) + [' '] + CollapseWhitespace(b)
  {
    CollapseAppendWord(a + w, b);
    CollapseAppendBlanks(a, w);
  }

  /** A run of three spaces between two words becomes one space. */
  lemma CollapseRunBetweenWords(x: char, y: char)
    requires !IsSpace(x) && !IsSpace(y)
    ensures CollapseWhitespace([x, ' ', ' ', ' ', y]) == [x, ' ', y]
  {
    CollapseWordBoundary([x], [' ', ' ', ' '], [y]);
    assert [x] + [' ', ' ', ' '] + [y] == [x, ' ', ' ', ' ', y];
    CollapseKeepsClean([x]);
    CollapseKeepsClean([y]);
  }

  /** Collapsing twice is collapsing once. */
  lemma CollapseIdempotent(s: string)
    ensures CollapseWhitespace(CollapseWhitespace(s)) == CollapseWhitespace(s)
  {
    CollapseKeepsClean(CollapseWhitespace(s));
  }

  /** Single spaces between words are left as they are. */
  lemma CollapseKeepsSingleSpaces(x: char, u: char, y: char)
    requires !IsSpace(x) && !IsSpace(y) && !IsSpace(u)
    ensures CollapseWhitespace([x, ' ', u, ' ', y]) == [x, ' ', u, ' ', y]
    ensures CollapseWhitespace([x, ' ', y]) == [x, ' ', y]
  {
    var w := [x, ' ', u, ' ', y];
    assert w[..4][..3] == [x, ' ', u];
    assert NoDoubleSpace(w[..4][..3]);
    assert w[..4] == [x, ' ', u, ' '];
    CollapseKeepsClean(w);
    CollapseKeepsClean([x, ' ', y]);
  }

  /** Two spaces in a row become one. */
  lemma CollapseMergesDoubleSpace(x: char, y: char)
    requires !IsSpace(x) && !IsSpace(y)
    ensures CollapseWhitespace([x, ' ', ' ', y]) == [x, ' ', y]
  {
    var s2 := [x, ' '];
    CollapseSnoc([], x);
    assert [] + [x] == [x];
    CollapseSnoc([x], ' ');
    assert [x] + [' '] == s2;
    var ss := s2 + [' '];
    CollapseSnoc(s2, ' ');
    CollapseSnoc(ss, y);
    assert ss + [y] == [x, ' ', ' ', y];
  }

  /** A string of printable and whitespace characters is kept whole. */
  lemma {:induction false} KeepPrintableKeepsAll(s: string)
    requires forall i :: 0 <= i < |s| ==> IsPrintable(s[i]) || IsSpace(s[i])
    ensures KeepPrintable(s) == s
  {
    if s != [] {
      KeepPrintableKeepsAll(s[..|s| - 1]);
      assert s[..|s| - 1] + [s[|s| - 1]] == s;
    }
  }

  /** A control character between two spaces is dropped and the spaces stay. */
  lemma KeepPrintableDropsControl(x: char, u: char, y: char)
    requires IsPrintable(x) && IsPrintable(y) && !IsPrintable(u) && !IsSpace(u)
    ensures KeepPrintable([x, ' ', u, ' ', y]) == [x, ' ', ' ', y]
  {
    var s1 := [x];
    var s2 := s1 + [' '];
    var s3 := s2 + [u];
    var s4 := s3 + [' '];
    KeepPrintableSnoc([], x);
    assert [] + [x] == s1;
    KeepPrintableSnoc(s1, ' ');
    KeepPrintableSnoc(s2, u);
    KeepPrintableSnoc(s3, ' ');
    KeepPrintableSnoc(s4, y);
    assert s4 + [y] == [x, ' ', u, ' ', y];
  }

  /** Printable characters and spaces are kept as they are. */
  lemma KeepPrintableKeepsText(x: char, y: char)
    requires IsPrintable(x) && IsPrintable(y)
    ensures KeepPrintable([x, ' ', y]) == [x, ' ', y]
  {
    KeepPrintableKeepsAll([x, ' ', y]);
  }

  /** Dropping an unprintable character between two spaces leaves the spaces
      side by side, so cleaning twice is not the same as cleaning once:
      "a \x01 b" cleans to "a  b", which cleans to "a b". */
  lemma CleanTextNotIdempotent(x: char, u: char, y: char)
    requires IsPrintable(x) && IsPrintable(y) && !IsSpace(x) && !IsSpace(y)
    requires !IsPrintable(u) && !IsSpace(u)
    ensures CleanText([x, ' ', u, ' ', y]) == [x, ' ', ' ', y]
    ensures CleanText([x, ' ', ' ', y]) == [x, ' ', y]
  {
    var once, twice := [x, ' ', ' ', y], [x, ' ', y];
    CollapseKeepsSingleSpaces(x, u, y);
    CollapseMergesDoubleSpace(x, y);
    KeepPrintableDropsControl(x, u, y);
    KeepPrintableKeepsText(x, y);
    assert KeepPrintable(CollapseWhitespace([x, ' ', u, ' ', y])) == once;
    StripKeepsWord(once);
    assert CleanText([x, ' ', u, ' ', y]) == once;
    assert KeepPrintable(CollapseWhitespace(once)) == twice;
    StripKeepsWord(twice);
  }

  /** A string that neither starts nor ends with whitespace is its own strip. */
  lemma StripKeepsWord(s: string)
    requires s != [] && !IsSpace(s[0]) && !IsSpace(s[|s| - 1])
    ensures Strip(s) == s
  {
  }

  /** Characters `extract_context_snippet` takes after the keyword when no
      sentence end follows it. */
  const ContextLength: nat := 150

  /** The slice `text[start:end]` `extract_context_snippet` trims, and `hit`,
      the first occurrence of the keyword in the lowered text. */
  datatype Window = Window(start: nat, hit: nat, end: nat)

  /** `max(0, t.rfind('.', 0, idx) + 1)`: just after the last '.' before `idx`. */
  function SentenceStart(t: string, idx: nat): (s: nat)
    requires idx <= |t|
    ensures s <= idx
    ensures s == 0 || t[s - 1] == '.'
    ensures forall i :: s <= i < idx ==> t[i] != '.'
  {
    RFindChar(t, '.', idx) + 1
  }

  /** Lines 435-439: just after the first '.' at or after `from`, or
      `ContextLength` characters from `idx` (capped at the end) when there is none. */
  function SentenceEnd(t: string, idx: nat, from: nat): (e: nat)
    requires idx <= from <= |t|
    ensures idx <= e <= |t|
    ensures from <= idx + ContextLength ==> from <= e
    ensures (forall i :: from <= i < |t| ==> t[i] != '.') ==> e == MinInt(|t|, idx + ContextLength)
    ensures (exists i :: from <= i < |t| && t[i] == '.') ==>
              from < e && t[e - 1] == '.' && forall i :: from <= i < e - 1 ==> t[i] != '.'
  {
    var dot := FindFrom(t, ".", from);
    if dot == -1 then
      assert forall i :: from <= i < |t| ==> t[i] != '.' by {
        forall i | from <= i < |t| ensures t[i] != '.' { OccursAtChar(t, '.', i); }
      }
      MinInt(|t|, idx + ContextLength)
    else
      OccursAtChar(t, '.', dot);
      assert forall i :: from <= i < dot ==> t[i] != '.' by {
        forall i | from <= i < dot ensures t[i] != '.' { OccursAtChar(t, '.', i); }
      }
      dot + 1
  }

  /** The bounds computed at msci-intelligence-v2.py:426-439, on the lowered
      text (where '.' stands exactly where it stands in the original): from just
      after the last '.' before the keyword's first occurrence to just after the
      first '.' following it. */
  function SentenceWindow(text: string, keyword: string): (w: Option<Window>)
    ensures w.None? <==> !Contains(Lower(text), Lower(keyword))
    ensures w.Some? ==>
      && w.value.hit == Find(Lower(text), Lower(keyword))
      && OccursAt(Lower(text), Lower(keyword), w.value.hit)
      && w.value.start <= w.value.hit <= w.value.end <= |text|
      && w.value.start == SentenceStart(Lower(text), w.value.hit)
      && w.value.end == SentenceEnd(Lower(text), w.value.hit, w.value.hit + |keyword|)
  {
    var lowered := Lower(text);
    var idx := Find(lowered, Lower(keyword));
    if idx == -1 then None
    else Some(Window(SentenceStart(lowered, idx), idx, SentenceEnd(lowered, idx, idx + |keyword|)))
  }

  /** A character of an occurrence of the keyword in the lowered text has the
      keyword's whitespace class in the original text too. */
  lemma OccurrenceKeepsClass(text: string, keyword: string, hit: nat, j: nat)
    requires OccursAt(Lower(text), Lower(keyword), hit) && j < |keyword|
    ensures IsSpace(text[hit + j]) == IsSpace(keyword[j])
  {
    var lowered, lk := Lower(text), Lower(keyword);
    assert lowered[hit + j] == lk[j];
    LowerCharKeepsClass(keyword[j]);
    LowerCharKeepsClass(text[hit + j]);
  }

  /** When the keyword fits in `ContextLength`, the window covers its whole
      first occurrence, so a non-space character of the keyword shows up in it. */
  lemma WindowShowsKeyword(text: string, keyword: string, w: Window, j: nat)
    requires SentenceWindow(text, keyword) == Some(w)
    requires j < |keyword| <= ContextLength && !IsSpace(keyword[j])
    ensures w.start <= w.hit + j < w.end && !IsSpace(text[w.hit + j])
  {
    assert w.hit + |keyword| <= w.end;
    OccurrenceKeepsClass(text, keyword, w.hit, j);
  }

  /** `k` holds a character that is not whitespace. */
  predicate HasVisible(k: string) {
    exists j :: 0 <= j < |k| && !IsSpace(k[j])
  }

  /** `extract_context_snippet(text, keyword)` (msci-intelligence-v2.py:421-442). */
  function ContextSnippet(text: string, keyword: string): (r: string)
    ensures !Contains(Lower(text), Lower(keyword)) ==> r == []
    ensures |r| <= |text|
    ensures r != [] ==> !IsSpace(r[0]) && !IsSpace(r[|r| - 1])
    ensures Contains(Lower(text), Lower(keyword)) && |keyword| <= ContextLength && HasVisible(keyword) ==> r != []
  {
    match SentenceWindow(text, keyword)
    case None => []
    case Some(w) =>
      var slice := Slice(text, w.start, w.end);
      if |keyword| <= ContextLength && HasVisible(keyword) then
        var j :| 0 <= j < |keyword| && !IsSpace(keyword[j]);
        WindowShowsKeyword(text, keyword, w, j);
        assert slice[w.hit + j - w.start] == text[w.hit + j];
        Strip(slice)
      else
        Strip(slice)
  }
}
