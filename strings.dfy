/**
 * The Python string built-ins both scripts lean on, over `string` (a sequence of code points):
 * `str.split(sep)`, `sep.join(parts)`, `str.strip()` and `str.lstrip(chars)`, `str.splitlines()`,
 * `str.replace` of one character, `str.isupper()` and `str(n)` for a natural number.
 */
module Strings {

  /** The code points Python's `str.isspace()` accepts, which `str.strip()` removes. */
  predicate IsSpace(c: char) {
    var n := c as int;
    (0x09 <= n <= 0x0D) || (0x1C <= n <= 0x20) || n == 0x85 || n == 0xA0 || n == 0x1680 ||
    (0x2000 <= n <= 0x200A) || n == 0x2028 || n == 0x2029 || n == 0x202F || n == 0x205F || n == 0x3000
  }

  /** The code points `str.splitlines()` treats as line boundaries (`"\r\n"` counts as one). */
  predicate IsLineBreak(c: char) {
    var n := c as int;
    (0x0A <= n <= 0x0D) || (0x1C <= n <= 0x1E) || n == 0x85 || n == 0x2028 || n == 0x2029
  }

  predicate AllSpace(s: string) {
    forall i :: 0 <= i < |s| ==> IsSpace(s[i])
  }

  /** `str.isupper()` restricted to ASCII: some upper-case letter and no lower-case one. */
  predicate IsUpper(s: string) {
    (exists i :: 0 <= i < |s| && 'A' <= s[i] <= 'Z') && forall i :: 0 <= i < |s| ==> !('a' <= s[i] <= 'z')
  }

  /** True when `sep` occurs in `s` starting at index `i`. */
  predicate OccursAt(s: string, sep: string, i: nat) {
    i + |sep| <= |s| && s[i..i + |sep|] == sep
  }

  /** Sum of the lengths of `parts` (`sum(len(p) for p in parts)`). */
  function SumLen(parts: seq<string>): nat {
    if parts == [] then 0 else |parts[0]| + SumLen(parts[1..])
  }

  lemma {:induction false} SumLenAppend(parts: seq<string>, x: string)
    ensures SumLen(parts + [x]) == SumLen(parts) + |x|
  {
    if parts != [] {
      assert (parts + [x])[1..] == parts[1..] + [x];
      SumLenAppend(parts[1..], x);
    }
  }

  lemma {:induction false} SumLenMember(parts: seq<string>, k: nat)
    requires k < |parts|
    ensures |parts[k]| <= SumLen(parts)
  {
    if k > 0 {
      SumLenMember(parts[1..], k - 1);
    }
  }

  /** `sep.join(parts)`. */
  function Join(parts: seq<string>, sep: string): string {
    if parts == [] then []
    else if |parts| == 1 then parts[0]
    else parts[0] + sep + Join(parts[1..], sep)
  }

  /** The joined text is as long as the parts plus one separator between each two of them. */
  lemma {:induction false} JoinLength(parts: seq<string>, sep: string)
    requires parts != []
    ensures |Join(parts, sep)| == SumLen(parts) + |sep| * (|parts| - 1)
  {
    if |parts| > 1 {
      JoinLength(parts[1..], sep);
    }
  }

  /** Joining one more part adds a separator and that part at the end. */
  lemma {:induction false} JoinAppend(parts: seq<string>, x: string, sep: string)
    ensures Join(parts + [x], sep) == if parts == [] then x else Join(parts, sep) + sep + x
  {
    if |parts| > 1 {
      assert (parts + [x])[1..] == parts[1..] + [x];
      JoinAppend(parts[1..], x, sep);
    } else if |parts| == 1 {
      assert (parts + [x])[1..] == [x];
    }
  }

  /** Every character of a joined text comes from a part or from the separator. */
  lemma {:induction false} JoinMembers(parts: seq<string>, sep: string, c: char)
    ensures c in Join(parts, sep) ==> c in sep || exists k :: 0 <= k < |parts| && c in parts[k]
    ensures (exists k :: 0 <= k < |parts| && c in parts[k]) ==> c in Join(parts, sep)
  {
    if |parts| > 1 {
      JoinMembers(parts[1..], sep, c);
      assert forall k :: 1 <= k < |parts| ==> parts[k] == parts[1..][k - 1];
    }
  }

  /**
   * `s.split(sep)`: cut `s` at every occurrence of `sep`, scanning left to right, so that two
   * cuts never overlap. There is always at least one piece.
   */
  function Split(s: string, sep: string): (r: seq<string>)
    requires sep != []
    ensures r != []
    decreases |s|
  {
    if |s| < |sep| then [s]
    else if s[..|sep|] == sep then [""] + Split(s[|sep|..], sep)
    else
      var rest := Split(s[1..], sep);
      [[s[0]] + rest[0]] + rest[1..]
  }

  /** No piece of a split contains the separator, and the first piece is where the text begins. */
  lemma {:induction false} SplitPiecesLackSep(s: string, sep: string)
    requires sep != []
    ensures var r := Split(s, sep);
      r[0] <= s && forall k, i :: 0 <= k < |r| && 0 <= i ==> !OccursAt(r[k], sep, i)
    decreases |s|
  {
    if |s| < |sep| {
      assert forall i :: 0 <= i ==> !OccursAt(s, sep, i);
    } else if s[..|sep|] == sep {
      SplitPiecesLackSep(s[|sep|..], sep);
      var r := Split(s, sep);
      assert forall k :: 1 <= k < |r| ==> r[k] == Split(s[|sep|..], sep)[k - 1];
    } else {
      SplitPiecesLackSep(s[1..], sep);
      var rest := Split(s[1..], sep);
      var first := [s[0]] + rest[0];
      assert first <= s by {
        assert s == [s[0]] + s[1..];
      }
      forall i | 0 <= i
        ensures !OccursAt(first, sep, i)
      {
        if i == 0 {
          assert |sep| <= |first| ==> first[0..|sep|] == s[..|sep|];
        } else {
          assert !OccursAt(rest[0], sep, i - 1);
          assert i + |sep| <= |first| ==> first[i..i + |sep|] == rest[0][i - 1..i - 1 + |sep|];
        }
      }
      var r := Split(s, sep);
      assert forall k :: 1 <= k < |r| ==> r[k] == rest[k];
    }
  }

  /** Splitting and joining back with the same separator gives the text back. */
  lemma {:induction false} JoinSplit(s: string, sep: string)
    requires sep != []
    ensures Join(Split(s, sep), sep) == s
    decreases |s|
  {
    if |s| < |sep| {
    } else if s[..|sep|] == sep {
      JoinSplit(s[|sep|..], sep);
      assert s == sep + s[|sep|..];
    } else {
      var rest := Split(s[1..], sep);
      JoinSplit(s[1..], sep);
      JoinPrepend(s[0], rest, sep);
      assert s == [s[0]] + s[1..];
    }
  }

  /** Putting a character in front of the first part puts it in front of the joined text. */
  lemma JoinPrepend(c: char, parts: seq<string>, sep: string)
    requires parts != []
    ensures Join([[c] + parts[0]] + parts[1..], sep) == [c] + Join(parts, sep)
  {
    var q := [[c] + parts[0]] + parts[1..];
    if |parts| > 1 {
      assert q[1..] == parts[1..];
      var tail := Join(parts[1..], sep);
      assert Join(q, sep) == ([c] + parts[0]) + sep + tail;
      assert Join(parts, sep) == parts[0] + sep + tail;
      assert ([c] + parts[0]) + sep + tail == [c] + (parts[0] + sep + tail);
    }
  }

  /** `sep` occurs nowhere in `s`. */
  ghost predicate LacksSep(s: string, sep: string) {
    forall i :: 0 <= i ==> !OccursAt(s, sep, i)
  }

  /** A text without the separator splits into itself alone. */
  lemma {:induction false} SplitLacking(s: string, sep: string)
    requires sep != [] && LacksSep(s, sep)
    ensures Split(s, sep) == [s]
    decreases |s|
  {
    if |s| >= |sep| {
      assert !OccursAt(s, sep, 0);
      assert s[..|sep|] != sep by {
        assert s[0..|sep|] == s[..|sep|];
      }
      assert LacksSep(s[1..], sep) by {
        forall i | 0 <= i ensures !OccursAt(s[1..], sep, i) {
          assert !OccursAt(s, sep, i + 1);
          assert i + |sep| <= |s[1..]| ==> s[1..][i..i + |sep|] == s[i + 1..i + 1 + |sep|];
        }
      }
      SplitLacking(s[1..], sep);
      assert [s[0]] + s[1..] == s;
    }
  }

  /**
   * When `sep` starts nowhere inside the piece `p` of `p + sep + t`, splitting cuts `p` off
   * first and goes on with `t`.
   */
  lemma {:induction false} SplitAfterPiece(p: string, sep: string, t: string)
    requires sep != []
    requires forall i :: 0 <= i < |p| ==> !OccursAt(p + sep + t, sep, i)
    ensures Split(p + sep + t, sep) == [p] + Split(t, sep)
    decreases |p|
  {
    var s := p + sep + t;
    if p == [] {
      assert s == sep + t;
      assert s[..|sep|] == sep && s[|sep|..] == t;
    } else {
      assert !OccursAt(s, sep, 0);
      assert s[..|sep|] != sep by {
        assert s[0..|sep|] == s[..|sep|];
      }
      assert s[1..] == p[1..] + sep + t;
      forall i | 0 <= i < |p[1..]| ensures !OccursAt(p[1..] + sep + t, sep, i) {
        assert !OccursAt(s, sep, i + 1);
        assert i + |sep| <= |s[1..]| ==> s[1..][i..i + |sep|] == s[i + 1..i + 1 + |sep|];
      }
      SplitAfterPiece(p[1..], sep, t);
      assert [s[0]] + p[1..] == p;
    }
  }

  /** A blank-line separator after a piece that lacks it and does not end in `'\n'` starts nowhere inside that piece. */
  lemma NoBlankLineAcross(p: string, t: string)
    requires LacksSep(p, "\n\n") && (p == [] || p[|p| - 1] != '\n')
    ensures forall i :: 0 <= i < |p| ==> !OccursAt(p + "\n\n" + t, "\n\n", i)
  {
    var s := p + "\n\n" + t;
    forall i | 0 <= i < |p| ensures !OccursAt(s, "\n\n", i) {
      if i + 2 <= |p| {
        assert !OccursAt(p, "\n\n", i);
        assert s[i..i + 2] == p[i..i + 2];
      } else {
        assert s[i] == p[|p| - 1];
      }
    }
  }

  /**
   * Splitting blank-line-joined pieces on the blank line gives the pieces back, provided no
   * piece holds a blank line and none but the last ends in `'\n'` (so that no blank line
   * straddles a piece and the separator after it).
   */
  lemma {:induction false} SplitJoin(g: seq<string>)
    requires g != []
    requires forall k :: 0 <= k < |g| ==> LacksSep(g[k], "\n\n")
    requires forall k :: 0 <= k < |g| - 1 ==> g[k] == [] || g[k][|g[k]| - 1] != '\n'
    ensures Split(Join(g, "\n\n"), "\n\n") == g
  {
    if |g| == 1 {
      SplitLacking(g[0], "\n\n");
    } else {
      var rest := g[1..];
      assert forall k :: 0 <= k < |rest| ==> rest[k] == g[k + 1];
      SplitJoin(rest);
      NoBlankLineAcross(g[0], Join(rest, "\n\n"));
      SplitAfterPiece(g[0], "\n\n", Join(rest, "\n\n"));
      assert g == [g[0]] + rest;
    }
  }

  /** A text splits on a one-character separator into a single piece iff it lacks that character. */
  lemma {:induction false} SplitSingle(s: string, c: char)
    ensures |Split(s, [c])| == 1 <==> c !in s
    decreases |s|
  {
    if |s| >= 1 {
      if s[..1] == [c] {
        assert s[0] == c;
      } else {
        SplitSingle(s[1..], c);
        assert c in s <==> s[0] == c || c in s[1..] by {
          assert s == [s[0]] + s[1..];
        }
      }
    }
  }

  /** The index of the first character of `s` at or after `i` that is not in `chars`, or `|s|`. */
  function SkipChars(s: string, chars: string, i: nat): (k: nat)
    requires i <= |s|
    ensures i <= k <= |s| && (k < |s| ==> s[k] !in chars)
    decreases |s| - i
  {
    if i == |s| || s[i] !in chars then i else SkipChars(s, chars, i + 1)
  }

  /** Everything `SkipChars` passes over is in `chars`. */
  lemma {:induction false} SkipCharsSkipped(s: string, chars: string, i: nat)
    requires i <= |s|
    ensures forall m :: i <= m < SkipChars(s, chars, i) ==> s[m] in chars
    decreases |s| - i
  {
    if i < |s| && s[i] in chars {
      SkipCharsSkipped(s, chars, i + 1);
    }
  }

  /**
   * `s.lstrip(chars)`: `s` without the characters of `chars` at its start; it is a suffix of
   * `s` that is empty or does not begin with one of `chars`.
   */
  function LStripChars(s: string, chars: string): (r: string)
    ensures |r| <= |s| && SliceAt(r, s, |s| - |r|)
    ensures r == [] || r[0] !in chars
  {
    var k := SkipChars(s, chars, 0);
    assert s[k..] == s[k..|s|];
    s[k..]
  }

  /** Only characters of `chars` are removed by `lstrip`. */
  lemma LStripCharsRemoves(s: string, chars: string)
    ensures var r := LStripChars(s, chars);
      forall m :: 0 <= m < |s| - |r| ==> s[m] in chars
  {
    SkipCharsSkipped(s, chars, 0);
  }

  /** The index of the first character of `s` at or after `i` that is not white space, or `|s|`. */
  function SkipSpace(s: string, i: nat): (k: nat)
    requires i <= |s|
    ensures i <= k <= |s| && (k < |s| ==> !IsSpace(s[k]))
    decreases |s| - i
  {
    if i == |s| || !IsSpace(s[i]) then i else SkipSpace(s, i + 1)
  }

  lemma {:induction false} SkipSpaceSkipped(s: string, i: nat)
    requires i <= |s|
    ensures forall m :: i <= m < SkipSpace(s, i) ==> IsSpace(s[m])
    decreases |s| - i
  {
    if i < |s| && IsSpace(s[i]) {
      SkipSpaceSkipped(s, i + 1);
    }
  }

  /** One past the last character of `s[lo..j]` that is not white space, or `lo`. */
  function SkipSpaceBack(s: string, lo: nat, j: nat): (k: nat)
    requires lo <= j <= |s|
    ensures lo <= k <= j && (k > lo ==> !IsSpace(s[k - 1]))
    decreases j
  {
    if j == lo || !IsSpace(s[j - 1]) then j else SkipSpaceBack(s, lo, j - 1)
  }

  lemma {:induction false} SkipSpaceBackSkipped(s: string, lo: nat, j: nat)
    requires lo <= j <= |s|
    ensures forall m :: SkipSpaceBack(s, lo, j) <= m < j ==> IsSpace(s[m])
    decreases j
  {
    if j > lo && IsSpace(s[j - 1]) {
      SkipSpaceBackSkipped(s, lo, j - 1);
    }
  }

  /** Where `s.strip()` starts in `s`. */
  function StripStart(s: string): (a: nat)
    ensures a <= |s|
  {
    SkipSpace(s, 0)
  }

  /** Where `s.strip()` ends in `s`. */
  function StripEnd(s: string): (b: nat)
    ensures StripStart(s) <= b <= |s|
  {
    SkipSpaceBack(s, StripStart(s), |s|)
  }

  /**
   * `s.strip()`: the slice of `s` left after removing white space at both ends; when it is not
   * empty it begins and ends with a character that is not white space.
   */
  function Strip(s: string): (r: string)
    ensures r == s[StripStart(s)..StripEnd(s)]
    ensures r != [] ==> IsStripped(r)
  {
    s[StripStart(s)..StripEnd(s)]
  }

  /** Only white space lies before and after the stripped text. */
  lemma StripRemovesSpace(s: string)
    ensures AllSpace(s[..StripStart(s)]) && AllSpace(s[StripEnd(s)..])
  {
    var a, b := StripStart(s), StripEnd(s);
    SkipSpaceSkipped(s, 0);
    SkipSpaceBackSkipped(s, a, |s|);
    assert forall m :: 0 <= m < a ==> s[..a][m] == s[m];
    assert forall m :: 0 <= m < |s| - b ==> s[b..][m] == s[b + m];
  }

  /** A text strips to nothing exactly when it is empty or all white space. */
  lemma StripEmptyIffBlank(s: string)
    ensures Strip(s) == [] <==> AllSpace(s)
  {
    var a, b := StripStart(s), StripEnd(s);
    StripRemovesSpace(s);
    if a == b {
      assert a == |s|;
      assert s[..a] == s;
    } else {
      assert !IsSpace(s[b - 1]);
    }
  }

  /** `t` occurs in `s` starting at index `a`. */
  predicate SliceAt(t: string, s: string, a: nat) {
    a + |t| <= |s| && t == s[a..a + |t|]
  }

  /** A non-empty text that neither begins nor ends with white space, as `strip()` leaves it. */
  predicate IsStripped(p: string) {
    p != [] && !IsSpace(p[0]) && !IsSpace(p[|p| - 1])
  }

  /** Stripping a stripped text changes nothing. */
  lemma StripIdempotent(s: string)
    ensures Strip(Strip(s)) == Strip(s)
  {
    var t := Strip(s);
    if t != [] {
      assert StripStart(t) == 0;
      assert StripEnd(t) == |t|;
    }
  }

  /**
   * `[p.strip() for p in pieces if p.strip()]`: the stripped pieces, blank ones dropped, in order.
   */
  function StrippedNonBlank(pieces: seq<string>): (r: seq<string>)
    ensures |r| <= |pieces|
  {
    if pieces == [] then []
    else
      var p := Strip(pieces[0]);
      (if p != [] then [p] else []) + StrippedNonBlank(pieces[1..])
  }

  /** No piece survives exactly when every piece is empty or all white space. */
  lemma {:induction false} StrippedNonBlankEmpty(pieces: seq<string>)
    ensures StrippedNonBlank(pieces) == [] <==> forall k :: 0 <= k < |pieces| ==> AllSpace(pieces[k])
  {
    if pieces != [] {
      StripEmptyIffBlank(pieces[0]);
      StrippedNonBlankEmpty(pieces[1..]);
      assert forall k :: 1 <= k < |pieces| ==> pieces[k] == pieces[1..][k - 1];
    }
  }

  lemma {:induction false} StrippedNonBlankAreStripped(pieces: seq<string>)
    ensures forall p :: p in StrippedNonBlank(pieces) ==> IsStripped(p)
  {
    if pieces != [] {
      StrippedNonBlankAreStripped(pieces[1..]);
      var p := Strip(pieces[0]);
      assert StrippedNonBlank(pieces) == (if p != [] then [p] else []) + StrippedNonBlank(pieces[1..]);
    }
  }

  /** `[p.strip() for p in text.split("\n\n") if p.strip()]`: the blank-line paragraphs of a text. */
  function Paragraphs(text: string): seq<string> {
    StrippedNonBlank(Split(text, "\n\n"))
  }

  /** Every paragraph is non-empty and neither begins nor ends with white space. */
  lemma ParagraphsAreStripped(text: string)
    ensures forall p :: p in Paragraphs(text) ==> IsStripped(p)
  {
    StrippedNonBlankAreStripped(Split(text, "\n\n"));
  }

  /** A text has no paragraph exactly when it is empty or all white space. */
  lemma ParagraphsEmptyIffBlank(text: string)
    ensures Paragraphs(text) == [] <==> AllSpace(text)
  {
    var pieces := Split(text, "\n\n");
    StrippedNonBlankEmpty(pieces);
    JoinSplit(text, "\n\n");
    if AllSpace(text) {
      forall k | 0 <= k < |pieces| ensures AllSpace(pieces[k]) {
        forall i | 0 <= i < |pieces[k]| ensures IsSpace(pieces[k][i]) {
          var c := pieces[k][i];
          JoinMembers(pieces, "\n\n", c);
        }
      }
    } else {
      var i :| 0 <= i < |text| && !IsSpace(text[i]);
      var c := text[i];
      JoinMembers(pieces, "\n\n", c);
      assert c !in "\n\n";
      var k :| 0 <= k < |pieces| && c in pieces[k];
      assert !AllSpace(pieces[k]);
    }
  }

  lemma SliceOfSlice(s: string, a: nat, b: nat, i: nat, j: nat)
    requires a <= b <= |s| && i <= j <= b - a
    ensures s[a..b][i..j] == s[a + i..a + j]
  {
    assert forall m :: 0 <= m < j - i ==> s[a..b][i..j][m] == s[a + i + m];
  }

  /** A slice of a text without the separator is without it too. */
  lemma SliceLacks(s: string, a: nat, b: nat, sep: string)
    requires a <= b <= |s| && LacksSep(s, sep)
    ensures LacksSep(s[a..b], sep)
  {
    forall i | 0 <= i ensures !OccursAt(s[a..b], sep, i) {
      assert !OccursAt(s, sep, a + i);
      if i + |sep| <= b - a {
        SliceOfSlice(s, a, b, i, i + |sep|);
      }
    }
  }

  /** Stripping the pieces keeps them without the separator. */
  lemma {:induction false} StrippedNonBlankLacks(pieces: seq<string>, sep: string)
    requires forall k :: 0 <= k < |pieces| ==> LacksSep(pieces[k], sep)
    ensures forall p :: p in StrippedNonBlank(pieces) ==> LacksSep(p, sep)
  {
    if pieces != [] {
      var rest := pieces[1..];
      assert forall k :: 0 <= k < |rest| ==> rest[k] == pieces[k + 1];
      StrippedNonBlankLacks(rest, sep);
      SliceLacks(pieces[0], StripStart(pieces[0]), StripEnd(pieces[0]), sep);
      var p := Strip(pieces[0]);
      assert StrippedNonBlank(pieces) == (if p != [] then [p] else []) + StrippedNonBlank(rest);
    }
  }

  /** No paragraph holds a blank line. */
  lemma ParagraphsLackBlankLine(text: string)
    ensures forall p :: p in Paragraphs(text) ==> LacksSep(p, "\n\n")
  {
    var pieces := Split(text, "\n\n");
    SplitPiecesLackSep(text, "\n\n");
    assert forall k :: 0 <= k < |pieces| ==> LacksSep(pieces[k], "\n\n");
    StrippedNonBlankLacks(pieces, "\n\n");
  }

  /** The length of the first line of `s`: the index of its first line break, or `|s|`. */
  function LineLength(s: string): (k: nat)
    ensures k <= |s| && (k < |s| ==> IsLineBreak(s[k]))
  {
    if s == [] || IsLineBreak(s[0]) then 0 else 1 + LineLength(s[1..])
  }

  /** The first line holds no line break. */
  lemma {:induction false} LineLengthNoBreak(s: string)
    ensures forall i :: 0 <= i < LineLength(s) ==> !IsLineBreak(s[i])
  {
    if s != [] && !IsLineBreak(s[0]) {
      LineLengthNoBreak(s[1..]);
      assert forall i :: 1 <= i < |s| ==> s[i] == s[1..][i - 1];
    }
  }

  /** Where the line after the break at `k` starts: `"\r\n"` is one boundary. */
  function NextLineStart(s: string, k: nat): (next: nat)
    requires k < |s|
    ensures k < next <= |s|
  {
    if s[k] == '\r' && k + 1 < |s| && s[k + 1] == '\n' then k + 2 else k + 1
  }

  /**
   * `s.splitlines()`: the lines of `s` without their line boundaries; a final boundary does not
   * start an empty line, and `"\r\n"` is one boundary.
   */
  function SplitLines(s: string): (r: seq<string>)
    decreases |s|
  {
    if s == [] then []
    else
      var k := LineLength(s);
      if k == |s| then [s]
      else
        [s[..k]] + SplitLines(s[NextLineStart(s, k)..])
  }

  /** `s` holds no line boundary character. */
  predicate NoLineBreak(s: string) {
    forall i :: 0 <= i < |s| ==> !IsLineBreak(s[i])
  }

  /** Every line in `lines` is free of line breaks. */
  predicate NoLineBreaks(lines: seq<string>) {
    forall k :: 0 <= k < |lines| ==> NoLineBreak(lines[k])
  }

  lemma NoLineBreaksCons(line: string, rest: seq<string>)
    requires NoLineBreak(line) && NoLineBreaks(rest)
    ensures NoLineBreaks([line] + rest)
  {
    assert forall k :: 1 <= k < |[line] + rest| ==> ([line] + rest)[k] == rest[k - 1];
  }

  /** No line holds a line break, and a text without line breaks is one line (or none if empty). */
  lemma {:induction false} SplitLinesNoBreaks(s: string)
    ensures NoLineBreaks(SplitLines(s))
    ensures NoLineBreak(s) ==> SplitLines(s) == if s == [] then [] else [s]
    decreases |s|
  {
    if s != [] {
      var k := LineLength(s);
      LineLengthNoBreak(s);
      if k < |s| {
        var rest := SplitLines(s[NextLineStart(s, k)..]);
        SplitLinesNoBreaks(s[NextLineStart(s, k)..]);
        assert SplitLines(s) == [s[..k]] + rest;
        assert NoLineBreak(s[..k]) by {
          assert forall i :: 0 <= i < k ==> s[..k][i] == s[i];
        }
        NoLineBreaksCons(s[..k], rest);
        assert !NoLineBreak(s) by {
          assert IsLineBreak(s[k]);
        }
      } else {
        assert SplitLines(s) == [s];
        assert NoLineBreak(s);
      }
    }
  }

  /** A line boundary: `"\r\n"` or one line-break character. */
  predicate IsBoundary(b: string) {
    b == "\r\n" || (|b| == 1 && IsLineBreak(b[0]))
  }

  /** The boundary that ends each line of `SplitLines(s)`; `""` after a last line that has none. */
  function LineEnds(s: string): seq<string>
    decreases |s|
  {
    if s == [] then []
    else
      var k := LineLength(s);
      if k == |s| then [""]
      else [s[k..NextLineStart(s, k)]] + LineEnds(s[NextLineStart(s, k)..])
  }

  /** Each line followed by its boundary, all concatenated. */
  function Rejoin(lines: seq<string>, ends: seq<string>): string
    requires |lines| == |ends|
  {
    if lines == [] then [] else lines[0] + ends[0] + Rejoin(lines[1..], ends[1..])
  }

  /** Every end but the last is a boundary; the last is a boundary or `""`. */
  predicate EndsAreBoundaries(ends: seq<string>) {
    (forall i :: 0 <= i < |ends| - 1 ==> IsBoundary(ends[i])) &&
    (ends != [] ==> ends[|ends| - 1] == [] || IsBoundary(ends[|ends| - 1]))
  }

  lemma EndsAreBoundariesCons(e: string, ends: seq<string>)
    requires IsBoundary(e) && EndsAreBoundaries(ends)
    ensures EndsAreBoundaries([e] + ends)
  {
    assert forall i :: 1 <= i < |ends| + 1 ==> ([e] + ends)[i] == ends[i - 1];
  }

  lemma RejoinCons(line: string, e: string, lines: seq<string>, ends: seq<string>)
    requires |lines| == |ends|
    ensures Rejoin([line] + lines, [e] + ends) == line + e + Rejoin(lines, ends)
  {
    assert ([line] + lines)[1..] == lines && ([e] + ends)[1..] == ends;
  }

  lemma ThreeSlices(s: string, k: nat, n: nat)
    requires k <= n <= |s|
    ensures s[..k] + s[k..n] + s[n..] == s
  {
    assert s[..k] + s[k..n] == s[..n];
    assert s[..n] + s[n..] == s;
  }

  /** The text after the first line, up to where the next line starts, is one boundary. */
  lemma FirstBoundary(s: string)
    requires LineLength(s) < |s|
    ensures IsBoundary(s[LineLength(s)..NextLineStart(s, LineLength(s))])
  {
    var k := LineLength(s);
    if NextLineStart(s, k) == k + 2 {
      assert s[k..k + 2] == [s[k], s[k + 1]];
    } else {
      assert s[k..k + 1] == [s[k]];
    }
  }

  /**
   * The lines of `s`, each followed by the boundary it was split at, give `s` back: every line
   * but the last ends at a boundary, and the last ends at one or at the end of the text.
   */
  lemma {:induction false} SplitLinesRoundTrip(s: string)
    ensures |LineEnds(s)| == |SplitLines(s)|
    ensures Rejoin(SplitLines(s), LineEnds(s)) == s
    ensures EndsAreBoundaries(LineEnds(s))
    decreases |s|
  {
    if s != [] {
      var k := LineLength(s);
      if k < |s| {
        var n := NextLineStart(s, k);
        SplitLinesRoundTrip(s[n..]);
        assert SplitLines(s) == [s[..k]] + SplitLines(s[n..]);
        assert LineEnds(s) == [s[k..n]] + LineEnds(s[n..]);
        RejoinCons(s[..k], s[k..n], SplitLines(s[n..]), LineEnds(s[n..]));
        FirstBoundary(s);
        EndsAreBoundariesCons(s[k..n], LineEnds(s[n..]));
        ThreeSlices(s, k, n);
      } else {
        assert SplitLines(s) == [s] && LineEnds(s) == [""];
        assert Rejoin([s], [""]) == s + "" + Rejoin([], []);
      }
    }
  }

  /** `s.replace(from, to)` for single characters. */
  function ReplaceChar(s: string, from: char, to: char): (r: string)
    ensures |r| == |s|
    ensures forall i :: 0 <= i < |s| ==> r[i] == if s[i] == from then to else s[i]
  {
    if s == [] then [] else [if s[0] == from then to else s[0]] + ReplaceChar(s[1..], from, to)
  }

  /** `n` copies of `s` as a list (`[s] * n`). */
  function Repeat(s: string, n: nat): (r: seq<string>)
    ensures |r| == n && forall i :: 0 <= i < n ==> r[i] == s
  {
    if n == 0 then [] else [s] + Repeat(s, n - 1)
  }

  function DigitChar(d: nat): char
    requires d < 10
  {
    "0123456789"[d]
  }

  function DigitValue(c: char): nat {
    if '0' <= c <= '9' then (c as int) - ('0' as int) else 0
  }

  /** `str(n)` for a natural number: its decimal digits, most significant first. */
  function NatToString(n: nat): (r: string)
    ensures r != []
    ensures forall i :: 0 <= i < |r| ==> '0' <= r[i] <= '9'
  {
    if n < 10 then [DigitChar(n)] else NatToString(n / 10) + [DigitChar(n % 10)]
  }

  /** The value of a string of decimal digits (`int(s)`). */
  function ParseNat(s: string): nat {
    if s == [] then 0 else 10 * ParseNat(s[..|s| - 1]) + DigitValue(s[|s| - 1])
  }

  /** Reading back the decimal digits of `n` gives `n`. */
  lemma {:induction false} ParseNatToString(n: nat)
    ensures ParseNat(NatToString(n)) == n
  {
    if n >= 10 {
      var s := NatToString(n);
      assert s[..|s| - 1] == NatToString(n / 10);
      ParseNatToString(n / 10);
    } else {
      assert NatToString(n)[..0] == [];
    }
  }

  /** Different numbers print differently. */
  lemma NatToStringInjective(m: nat, n: nat)
    requires m != n
    ensures NatToString(m) != NatToString(n)
  {
    ParseNatToString(m);
    ParseNatToString(n);
  }
}
