/** The text layout helpers of pynemail/ui/utils.py: centring a window on
    the screen, fitting a string to a column count, and wrapping text into
    lines of exactly that many columns. */
module Layout {
  import opened Wrappers
  import Text

  /** `center(height, width, screen_h, screen_w)`: the top-left corner that
      centres a window, with Python's floor division. The margin after the
      window is the margin before it, or one more; an oversized window gets
      a negative corner. */
  function Center(height: int, width: int, screenH: int, screenW: int): (r: (int, int))
    ensures 2 * r.0 <= screenH - height <= 2 * r.0 + 1
    ensures 2 * r.1 <= screenW - width <= 2 * r.1 + 1
    ensures screenH - (r.0 + height) - r.0 in {0, 1}
    ensures screenW - (r.1 + width) - r.1 in {0, 1}
  {
    ((screenH - height) / 2, (screenW - width) / 2)
  }

  /** The two windows of the test suite, and a window taller than the
      screen, which floor division places above the top edge. */
  lemma CenterExamples()
    ensures Center(10, 8, 20, 20) == (5, 6)
    ensures Center(20, 60, 25, 80) == (2, 10)
    ensures Center(30, 8, 25, 80).0 == -3
  {
  }

  /** `fit_text_to_cols(text, cols)`: text longer than `cols` is cut to its
      first `cols - 3` characters (a Python slice, so a negative bound
      counts from the end) followed by `...`; shorter text is padded with
      spaces. */
  function FitTextToCols(text: string, cols: int): (r: string)
    ensures |text| <= cols ==> |r| == cols && r[..|text|] == text
    ensures |text| <= cols ==> forall k :: |text| <= k < |r| ==> r[k] == ' '
    ensures |text| > cols && cols >= 3 ==>
      |r| == cols && r[..cols - 3] == text[..cols - 3] && r[cols - 3..] == "..."
    ensures |text| > cols ==> Text.StartsWith(r, text[..Text.SliceIndex(|text|, cols - 3)])
    ensures |text| > cols ==> |r| == Text.SliceIndex(|text|, cols - 3) + 3
    ensures |text| > cols ==> r[|r| - 3..] == "..."
  {
    if |text| > cols then text[..Text.SliceIndex(|text|, cols - 3)] + "..."
    else text + Text.Spaces(cols - |text|)
  }

  /** From three columns on, the result always has exactly `cols`
      characters, so fitting it again changes nothing. */
  lemma FitIdempotent(text: string, cols: int)
    requires cols >= 3
    ensures |FitTextToCols(text, cols)| == cols
    ensures FitTextToCols(FitTextToCols(text, cols), cols) == FitTextToCols(text, cols)
  {
    var r := FitTextToCols(text, cols);
    assert Text.Spaces(cols - |r|) == [];
    assert r + [] == r;
  }

  /** The test suite's two cases, stated for any ten-character text: cut
      to five characters and `...` at eight columns, one space added at
      eleven. */
  lemma FitExamples(text: string)
    requires |text| == 10
    ensures FitTextToCols(text, 8) == text[..5] + "..."
    ensures FitTextToCols(text, 11) == text + " "
  {
    assert Text.Spaces(1) == " ";
  }

  /** A two-column field keeps all but the last character of a long text,
      since `text[:-1]` drops only that one. */
  lemma FitNegativeBound(text: string)
    requires |text| > 2
    ensures FitTextToCols(text, 2) == text[..|text| - 1] + "..."
  {
  }

  /** The position of the last whitespace character among the first `n`
      characters of `line`. */
  function LastSpace(line: string, n: nat): (r: Option<nat>)
    requires n <= |line|
    ensures r.Some? ==> r.value < n && Text.IsSpace(line[r.value])
    ensures r.Some? ==> forall j :: r.value < j < n ==> !Text.IsSpace(line[j])
    ensures r.None? ==> forall j :: 0 <= j < n ==> !Text.IsSpace(line[j])
  {
    if n == 0 then None
    else if Text.IsSpace(line[n - 1]) then Some(n - 1)
    else LastSpace(line, n - 1)
  }

  /** Where `_split_line_at_space_if_possible` cuts a line longer than
      `cols`: right after the last whitespace within the first `cols`
      characters, or at `cols` when there is none. */
  function SplitPoint(line: string, cols: nat): (p: nat)
    requires 1 <= cols < |line|
    ensures 1 <= p <= cols
    ensures Text.IsSpace(line[p - 1]) || p == cols
    ensures forall j :: p <= j < cols ==> !Text.IsSpace(line[j])
    ensures p < cols ==> Text.IsSpace(line[p - 1])
  {
    match LastSpace(line, cols)
    case Some(j) => j + 1
    case None => cols
  }

  /** `_split_line_at_space_if_possible(line, cols)`: scans the first `cols`
      characters backwards for whitespace and splits after the first one
      found. Its only caller passes a line longer than `cols >= 1`. */
  method SplitLineAtSpaceIfPossible(line: string, cols: nat) returns (head: string, tail: string)
    requires 1 <= cols < |line|
    ensures head + tail == line
    ensures |head| == SplitPoint(line, cols)
  {
    var i := 0;
    while i < cols
      invariant 0 <= i <= cols
      invariant forall j :: cols - i <= j < cols ==> !Text.IsSpace(line[j])
    {
      if Text.IsSpace(line[cols - 1 - i]) {
        assert line[..cols - i] + line[cols - i..] == line;
        return line[..cols - i], line[cols - i..];
      }
      i := i + 1;
    }
    assert line[..cols] + line[cols..] == line;
    return line[..cols], line[cols..];
  }

  /** A line is cut at the last space that fits, and hard at `cols` when
      the first `cols` characters hold none: in the test suite, `12 345...`
      at eight columns is cut after the space and `1234567890` after the
      eighth digit. */
  lemma SplitExamples(a: string, b: string, w: string)
    requires |a| == 2 && |b| == 13 && |w| == 10
    requires forall k :: 0 <= k < |a| ==> Text.IsDigit(a[k])
    requires forall k :: 0 <= k < |b| ==> Text.IsDigit(b[k])
    requires forall k :: 0 <= k < |w| ==> Text.IsDigit(w[k])
    ensures SplitPoint(a + " " + b, 8) == 3
    ensures SplitPoint(w, 8) == 8
  {
    var line := a + " " + b;
    assert line[2] == ' ';
  }

  /** `append_line`: the line padded with spaces to `cols` characters. */
  function Pad(l: string, cols: int): (r: string)
    ensures |l| <= cols ==> |r| == cols
    ensures |r| >= |l| && r[..|l|] == l
    ensures forall k :: |l| <= k < |r| ==> r[k] == ' '
  {
    l + Text.Spaces(cols - |l|)
  }

  /** Every piece padded, in order. */
  function PadAll(pieces: seq<string>, cols: int): (r: seq<string>)
    ensures |r| == |pieces|
    ensures forall k :: 0 <= k < |r| ==> r[k] == Pad(pieces[k], cols)
  {
    if pieces == [] then [] else [Pad(pieces[0], cols)] + PadAll(pieces[1..], cols)
  }

  /** The pieces the inner `while` loop of `wrap_text_to_cols` cuts one
      line into, before padding. */
  function WrapLine(line: string, cols: nat): (r: seq<string>)
    requires cols >= 1
    ensures |r| >= 1
    ensures forall k :: 0 <= k < |r| ==> |r[k]| <= cols
    ensures forall k :: 0 <= k < |r| - 1 ==> |r[k]| >= 1
    decreases |line|
  {
    if |line| > cols then
      var p := SplitPoint(line, cols);
      [line[..p]] + WrapLine(line[p..], cols)
    else [line]
  }

  /** The characters of the pieces, in order. */
  function Concat(pieces: seq<string>): string {
    if pieces == [] then [] else pieces[0] + Concat(pieces[1..])
  }

  /** Wrapping loses and adds nothing: the pieces of a line join back to
      the line. */
  lemma {:induction false} WrapLineJoins(line: string, cols: nat)
    requires cols >= 1
    ensures Concat(WrapLine(line, cols)) == line
    decreases |line|
  {
    if |line| > cols {
      var p := SplitPoint(line, cols);
      var r := WrapLine(line, cols);
      assert r[0] == line[..p] && r[1..] == WrapLine(line[p..], cols);
      WrapLineJoins(line[p..], cols);
      assert line[..p] + line[p..] == line;
    } else {
      assert WrapLine(line, cols)[1..] == [];
    }
  }

  /** A line that fits is one piece. */
  lemma WrapLineShort(line: string, cols: nat)
    requires cols >= 1 && |line| <= cols
    ensures WrapLine(line, cols) == [line]
  {
  }

  /** The padded pieces of every line, line after line. */
  function WrapLines(lines: seq<string>, cols: nat): (r: seq<string>)
    requires cols >= 1
    ensures |r| >= |lines|
    ensures forall k :: 0 <= k < |r| ==> |r[k]| == cols
  {
    if lines == [] then []
    else WrapLines(lines[..|lines| - 1], cols) + PadAll(WrapLine(lines[|lines| - 1], cols), cols)
  }

  /** The line breaks of `str.splitlines()`. */
  predicate IsLineBreak(c: char) {
    || c == '\n' || c == '\r' || c == '\U{0B}' || c == '\U{0C}'
    || c == '\U{1C}' || c == '\U{1D}' || c == '\U{1E}' || c == '\U{85}'
    || c == '\U{2028}' || c == '\U{2029}'
  }

  /** The index of the first line break, or the length. */
  function FirstBreak(s: string): (i: nat)
    ensures i <= |s|
    ensures i < |s| ==> IsLineBreak(s[i])
    ensures forall j :: 0 <= j < i ==> !IsLineBreak(s[j])
  {
    if s == [] || IsLineBreak(s[0]) then 0 else 1 + FirstBreak(s[1..])
  }

  /** `str.splitlines()`: the text cut at each line break, `\r\n` counting
      as one; a break at the very end starts no further line. */
  function Lines(s: string): (r: seq<string>)
    ensures forall k, j :: 0 <= k < |r| && 0 <= j < |r[k]| ==> !IsLineBreak(r[k][j])
    decreases |s|
  {
    if s == [] then []
    else
      var i := FirstBreak(s);
      if i == |s| then [s]
      else
        var next := if s[i] == '\r' && i + 1 < |s| && s[i + 1] == '\n' then i + 2 else i + 1;
        [s[..i]] + Lines(s[next..])
  }

  /** A line and a `\n` give that line, followed by the lines after it. */
  lemma LinesCons(a: string, b: string)
    requires forall j :: 0 <= j < |a| ==> !IsLineBreak(a[j])
    ensures Lines(a + "\n" + b) == [a] + Lines(b)
  {
    var s := a + "\n" + b;
    assert FirstBreak(s) == |a| by {
      FirstBreakAt(a, "\n" + b);
      assert s == a + ("\n" + b);
    }
    assert s[..|a|] == a && s[|a| + 1..] == b;
  }

  lemma {:induction false} FirstBreakAt(a: string, b: string)
    requires forall j :: 0 <= j < |a| ==> !IsLineBreak(a[j])
    requires b != [] && IsLineBreak(b[0])
    ensures FirstBreak(a + b) == |a|
    decreases |a|
  {
    if a != [] {
      assert (a + b)[1..] == a[1..] + b;
      FirstBreakAt(a[1..], b);
    } else {
      assert a + b == b;
    }
  }

  /** A text without line breaks is a single line, or none when empty. */
  lemma LinesOfLine(s: string)
    requires forall j :: 0 <= j < |s| ==> !IsLineBreak(s[j])
    ensures Lines(s) == if s == [] then [] else [s]
  {
  }

  /** `str.expandtabs(4)` from column `column`: each tab becomes the spaces
      up to the next multiple of four; `\n` and `\r` go back to column 0. */
  function ExpandTabs(s: string, column: nat): (r: string)
    ensures forall k :: 0 <= k < |r| ==> r[k] != '\t'
    ensures |r| >= |s|
    decreases |s|
  {
    if s == [] then []
    else if s[0] == '\t' then
      Text.Spaces(4 - column % 4) + ExpandTabs(s[1..], column + 4 - column % 4)
    else if s[0] == '\n' || s[0] == '\r' then
      [s[0]] + ExpandTabs(s[1..], 0)
    else
      [s[0]] + ExpandTabs(s[1..], column + 1)
  }

  /** Text without tabs is left as it is. */
  lemma {:induction false} ExpandTabsWithoutTabs(s: string, column: nat)
    requires forall k :: 0 <= k < |s| ==> s[k] != '\t'
    ensures ExpandTabs(s, column) == s
    decreases |s|
  {
    if s != [] {
      var next := if s[0] == '\n' || s[0] == '\r' then 0 else column + 1;
      ExpandTabsWithoutTabs(s[1..], next);
      assert [s[0]] + s[1..] == s;
    }
  }

  /** A tab at column `column` reaches the next multiple of four. */
  lemma ExpandTabStop(rest: string, column: nat)
    ensures ExpandTabs("\t" + rest, column) ==
      Text.Spaces(4 - column % 4) + ExpandTabs(rest, column + 4 - column % 4)
    ensures (column + 4 - column % 4) % 4 == 0
  {
    assert ("\t" + rest)[1..] == rest;
  }

  /** What `wrap_text_to_cols(text, cols)` returns: every line exactly
      `cols` characters wide. */
  function Wrap(text: string, cols: nat): (r: seq<string>)
    requires cols >= 1
    ensures forall k :: 0 <= k < |r| ==> |r[k]| == cols
  {
    WrapLines(Lines(ExpandTabs(text, 0)), cols)
  }

  /** `wrap_text_to_cols(text, cols)`: every line of the tab-expanded text,
      cut at spaces where possible and padded to `cols` characters. The
      source's loop does not terminate for `cols <= 0` on a non-empty
      line. */
  method WrapTextToCols(text: string, cols: nat) returns (wrapped: seq<string>)
    requires cols >= 1
    ensures wrapped == Wrap(text, cols)
  {
    var lines := Lines(ExpandTabs(text, 0));
    wrapped := [];
    var k := 0;
    while k < |lines|
      invariant 0 <= k <= |lines|
      invariant wrapped == WrapLines(lines[..k], cols)
    {
      var line := lines[k];
      assert lines[..k + 1][..k] == lines[..k];
      while |line| > cols
        invariant wrapped + PadAll(WrapLine(line, cols), cols) == WrapLines(lines[..k + 1], cols)
        decreases |line|
      {
        var head, rest := SplitLineAtSpaceIfPossible(line, cols);
        assert head == line[..SplitPoint(line, cols)] && rest == line[SplitPoint(line, cols)..];
        ghost var pieces := WrapLine(line, cols);
        assert pieces[0] == head && pieces[1..] == WrapLine(rest, cols);
        wrapped := wrapped + [Pad(head, cols)];
        line := rest;
      }
      assert PadAll(WrapLine(line, cols), cols) == [Pad(line, cols)];
      wrapped := wrapped + [Pad(line, cols)];
      k := k + 1;
    }
    assert lines[..k] == lines;
  }

  /** A line without tabs or line breaks. */
  predicate Plain(l: string) {
    forall k :: 0 <= k < |l| ==> l[k] != '\t' && !IsLineBreak(l[k])
  }

  /** Digits only: neither whitespace, a tab nor a line break. */
  predicate Digits(s: string) {
    forall k :: 0 <= k < |s| ==> Text.IsDigit(s[k])
  }

  /** A tab-free text of one line wraps like that line. */
  lemma WrapOfLine(line: string, cols: nat)
    requires cols >= 1 && line != []
    requires forall k :: 0 <= k < |line| ==> line[k] != '\t' && !IsLineBreak(line[k])
    ensures Wrap(line, cols) == PadAll(WrapLine(line, cols), cols)
  {
    ExpandTabsWithoutTabs(line, 0);
    LinesOfLine(line);
    assert Lines(ExpandTabs(line, 0)) == [line];
    assert [line][..0] == [];
    assert WrapLines([line], cols) == WrapLines([], cols) + PadAll(WrapLine(line, cols), cols);
  }

  /** A run of more than eight digits is cut hard every eight columns. */
  lemma WrapLineDigits(b: string)
    requires Digits(b) && 8 < |b| <= 16
    ensures WrapLine(b, 8) == [b[..8], b[8..]]
  {
    assert SplitPoint(b, 8) == 8;
  }

  /** The test suite's `'12 3456789012345'` at eight columns, for any two
      and thirteen digits: `['12      ', '34567890', '12345   ']`. */
  lemma WrapExampleSpaced(a: string, b: string)
    requires Digits(a) && Digits(b) && |a| == 2 && |b| == 13
    ensures Wrap(a + " " + b, 8) == [a + "      ", b[..8], b[8..] + "   "]
  {
    var line := a + " " + b;
    SplitExamples(a, b, b[..10]);
    assert line[..3] == a + " " && line[3..] == b;
    WrapLineDigits(b);
    assert WrapLine(line, 8) == [a + " ", b[..8], b[8..]];
    WrapOfLine(line, 8);
    PadAllThree(a + " ", b[..8], b[8..], 8);
    assert Text.Spaces(5) == "     " && Text.Spaces(3) == "   " && Text.Spaces(0) == "";
    assert Pad(a + " ", 8) == a + "      " by {
      assert a + " " + "     " == a + "      ";
    }
    assert Pad(b[..8], 8) == b[..8] by {
      assert b[..8] + "" == b[..8];
    }
    assert Pad(b[8..], 8) == b[8..] + "   ";
  }

  lemma PadAllThree(x: string, y: string, z: string, cols: int)
    ensures PadAll([x, y, z], cols) == [Pad(x, cols), Pad(y, cols), Pad(z, cols)]
  {
    assert [z][1..] == [];
    assert PadAll([z], cols) == [Pad(z, cols)];
    assert [y, z][1..] == [z];
    assert PadAll([y, z], cols) == [Pad(y, cols), Pad(z, cols)];
    assert [x, y, z][1..] == [y, z];
  }

  /** Two tab-free lines joined by `\n` wrap one after the other. */
  lemma WrapOfTwoLines(l1: string, l2: string, cols: nat)
    requires cols >= 1 && l2 != []
    requires Plain(l1) && Plain(l2)
    ensures Wrap(l1 + "\n" + l2, cols) == PadAll(WrapLine(l1, cols), cols) + PadAll(WrapLine(l2, cols), cols)
  {
    var text := l1 + "\n" + l2;
    assert forall k :: 0 <= k < |text| ==> text[k] != '\t' by {
      forall k | 0 <= k < |text| ensures text[k] != '\t' {
        if k < |l1| {
          assert text[k] == l1[k];
        } else if k > |l1| {
          assert text[k] == l2[k - |l1| - 1];
        }
      }
    }
    ExpandTabsWithoutTabs(text, 0);
    LinesOfTwo(l1, l2);
    WrapLinesOfTwo(l1, l2, cols);
  }

  lemma LinesOfTwo(l1: string, l2: string)
    requires l2 != []
    requires forall k :: 0 <= k < |l1| ==> !IsLineBreak(l1[k])
    requires forall k :: 0 <= k < |l2| ==> !IsLineBreak(l2[k])
    ensures Lines(l1 + "\n" + l2) == [l1, l2]
  {
    LinesCons(l1, l2);
    LinesOfLine(l2);
  }

  lemma WrapLinesOfTwo(l1: string, l2: string, cols: nat)
    requires cols >= 1
    ensures WrapLines([l1, l2], cols) == PadAll(WrapLine(l1, cols), cols) + PadAll(WrapLine(l2, cols), cols)
  {
    assert [l1, l2][..1] == [l1] && [l1][..0] == [];
    assert WrapLines([l1], cols) == PadAll(WrapLine(l1, cols), cols);
  }

  /** The test suite's `'12345 6\n01'` at eight columns, for any five, one
      and two digits: `['12345 6 ', '01      ']`. */
  lemma WrapExampleTwoLines(x: string, y: string, z: string)
    requires Digits(x) && Digits(y) && Digits(z) && |x| == 5 && |y| == 1 && |z| == 2
    ensures Wrap(x + " " + y + "\n" + z, 8) == [x + " " + y + " ", z + "      "]
  {
    var l1 := x + " " + y;
    WrapOfTwoLines(l1, z, 8);
    assert PadAll([l1], 8) == [Pad(l1, 8)] by {
      assert [l1][1..] == [];
    }
    assert PadAll([z], 8) == [Pad(z, 8)] by {
      assert [z][1..] == [];
    }
    assert Text.Spaces(1) == " " && Text.Spaces(6) == "      ";
  }

  /** The test suite's `'1234567890\n0123456789'` at eight columns, for any
      two ten-digit lines: `['12345678', '90      ', '01234567', '89      ']`. */
  lemma WrapExampleHardCuts(v: string, w: string)
    requires Digits(v) && Digits(w) && |v| == 10 && |w| == 10
    ensures Wrap(v + "\n" + w, 8) == [v[..8], v[8..] + "      ", w[..8], w[8..] + "      "]
  {
    WrapOfTwoLines(v, w, 8);
    HardCutLine(v);
    HardCutLine(w);
  }

  lemma HardCutLine(v: string)
    requires Digits(v) && |v| == 10
    ensures PadAll(WrapLine(v, 8), 8) == [v[..8], v[8..] + "      "]
  {
    WrapLineDigits(v);
    PadTwo(v[..8], v[8..]);
  }

  lemma PadTwo(full: string, rest: string)
    requires |full| == 8 && |rest| == 2
    ensures PadAll([full, rest], 8) == [full, rest + "      "]
  {
    assert [full, rest][1..] == [rest] && [rest][1..] == [];
    assert full + Text.Spaces(0) == full;
    assert Text.Spaces(6) == "      ";
  }

  /** Five digits, a space and five more are cut after the space. */
  lemma SpacedLine(x: string, y: string)
    requires Digits(x) && Digits(y) && |x| == 5 && |y| == 5
    ensures PadAll(WrapLine(x + " " + y, 8), 8) == [x + "   ", y + "   "]
  {
    var line := x + " " + y;
    assert line[5] == ' ';
    assert SplitPoint(line, 8) == 6;
    assert line[..6] == x + " " && line[6..] == y;
    assert WrapLine(line, 8) == [x + " ", y];
    assert [x + " ", y][1..] == [y] && [y][1..] == [];
    assert Text.Spaces(2) == "  " && Text.Spaces(3) == "   ";
    assert x + " " + "  " == x + "   ";
  }

  /** The test suite's `'12345 67890\n01234 56789'` at eight columns:
      `['12345   ', '67890   ', '01234   ', '56789   ']`. */
  lemma WrapExampleTwoSpaced(x: string, y: string, u: string, v: string)
    requires Digits(x) && Digits(y) && Digits(u) && Digits(v)
    requires |x| == 5 && |y| == 5 && |u| == 5 && |v| == 5
    ensures Wrap(x + " " + y + "\n" + u + " " + v, 8) == [x + "   ", y + "   ", u + "   ", v + "   "]
  {
    var l1, l2 := x + " " + y, u + " " + v;
    SpacedPlain(x, y);
    SpacedPlain(u, v);
    WrapOfTwoLines(l1, l2, 8);
    assert x + " " + y + "\n" + u + " " + v == l1 + "\n" + l2;
    SpacedLine(x, y);
    SpacedLine(u, v);
    assert [x + "   ", y + "   "] + [u + "   ", v + "   "] == [x + "   ", y + "   ", u + "   ", v + "   "];
  }

  /** The test suite's `'12345 67890\n01'` at eight columns:
      `['12345   ', '67890   ', '01      ']`. */
  lemma WrapExampleSpacedShort(x: string, y: string, z: string)
    requires Digits(x) && Digits(y) && Digits(z)
    requires |x| == 5 && |y| == 5 && |z| == 2
    ensures Wrap(x + " " + y + "\n" + z, 8) == [x + "   ", y + "   ", z + "      "]
  {
    var l1 := x + " " + y;
    SpacedPlain(x, y);
    WrapOfTwoLines(l1, z, 8);
    assert x + " " + y + "\n" + z == l1 + "\n" + z;
    SpacedLine(x, y);
    ShortLine(z);
    assert [x + "   ", y + "   "] + [z + "      "] == [x + "   ", y + "   ", z + "      "];
  }

  /** Two digits fill a line with six spaces. */
  lemma ShortLine(z: string)
    requires |z| == 2
    ensures PadAll(WrapLine(z, 8), 8) == [z + "      "]
  {
    assert Text.Spaces(6) == "      ";
  }

  lemma SpacedPlain(x: string, y: string)
    requires Digits(x) && Digits(y)
    ensures Plain(x + " " + y)
  {
  }
}
