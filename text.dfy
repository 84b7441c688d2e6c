/** The parts of Python's `str` that the modelled code relies on: `isspace`,
    `strip`, `split(sep)`, `sep.join`, `startswith`, slicing with negative and
    out-of-range bounds, `' ' * n`, and `int()` of a decimal literal. */
module Text {
  import opened Wrappers

  /** `c.isspace()`: the characters Python treats as whitespace (Unicode
      categories Zs, and bidirectional classes WS, B and S). */
  predicate IsSpace(c: char) {
    || c == ' '
    || ('\t' <= c <= '\r')
    || ('\U{1C}' <= c <= '\U{1F}')
    || c == '\U{85}' || c == '\U{A0}' || c == '\U{1680}'
    || ('\U{2000}' <= c <= '\U{200A}')
    || c == '\U{2028}' || c == '\U{2029}' || c == '\U{202F}' || c == '\U{205F}' || c == '\U{3000}'
  }

  predicate IsDigit(c: char) {
    '0' as int <= c as int <= '9' as int
  }

  predicate AllSpace(s: string) {
    forall k :: 0 <= k < |s| ==> IsSpace(s[k])
  }

  /** Number of whitespace characters at the start of `s`. */
  function LeadingSpaces(s: string): (n: nat)
    ensures n <= |s|
    ensures AllSpace(s[..n])
    ensures n < |s| ==> !IsSpace(s[n])
  {
    if |s| > 0 && IsSpace(s[0]) then
      var n' := LeadingSpaces(s[1..]);
      assert s[..n' + 1] == [s[0]] + s[1..][..n'];
      n' + 1
    else 0
  }

  /** Length of `s` without its trailing whitespace. */
  function TrailingStart(s: string): (n: nat)
    ensures n <= |s|
    ensures AllSpace(s[n..])
    ensures n > 0 ==> !IsSpace(s[n - 1])
  {
    if |s| > 0 && IsSpace(s[|s| - 1]) then
      var n := TrailingStart(s[..|s| - 1]);
      assert s[n..] == s[..|s| - 1][n..] + [s[|s| - 1]];
      n
    else |s|
  }

  /** `s.strip()`. */
  function Strip(s: string): (r: string)
    ensures |r| <= |s|
    ensures r == [] || (!IsSpace(r[0]) && !IsSpace(r[|r| - 1]))
    ensures AllSpace(s) ==> r == []
    ensures (s == [] || (!IsSpace(s[0]) && !IsSpace(s[|s| - 1]))) ==> r == s
    ensures exists i, j :: 0 <= i <= j <= |s| && r == s[i..j] && AllSpace(s[..i]) && AllSpace(s[j..])
  {
    var i := LeadingSpaces(s);
    var t := s[i..];
    var j := i + TrailingStart(t);
    var r := t[..TrailingStart(t)];
    assert r != [] ==> r[0] == s[LeadingSpaces(s)];
    assert AllSpace(s) ==> LeadingSpaces(s) == |s|;
    assert r == s[i..j] && s[j..] == t[TrailingStart(t)..];
    r
  }

  /** Whitespace in front of a string does not survive `strip`. */
  lemma {:induction false} StripAfterSpaces(sp: string, s: string)
    requires AllSpace(sp)
    ensures Strip(sp + s) == Strip(s)
    decreases |sp|
  {
    LeadingSpacesAfterSpaces(sp, s);
    assert (sp + s)[|sp| + LeadingSpaces(s)..] == s[LeadingSpaces(s)..];
  }

  lemma {:induction false} LeadingSpacesAfterSpaces(sp: string, s: string)
    requires AllSpace(sp)
    ensures LeadingSpaces(sp + s) == |sp| + LeadingSpaces(s)
    decreases |sp|
  {
    if sp != [] {
      assert (sp + s)[1..] == sp[1..] + s;
      LeadingSpacesAfterSpaces(sp[1..], s);
    } else {
      assert sp + s == s;
    }
  }

  /** `sep.join(parts)`. */
  function Join(parts: seq<string>, sep: char): string
  {
    if |parts| == 0 then ""
    else if |parts| == 1 then parts[0]
    else parts[0] + [sep] + Join(parts[1..], sep)
  }

  /** `s.split(sep)` for a one-character separator: the pieces between the
      separators, at least one, none containing the separator, joined back
      into `s`. */
  function Split(s: string, sep: char): (r: seq<string>)
    ensures |r| >= 1
    ensures forall k :: 0 <= k < |r| ==> sep !in r[k]
    ensures Join(r, sep) == s
    decreases |s|
  {
    if s == "" then [""]
    else
      var rest := Split(s[1..], sep);
      if s[0] == sep then
        assert [""] + rest == [""] + rest[0..];
        [""] + rest
      else
        var r := [[s[0]] + rest[0]] + rest[1..];
        assert r[1..] == rest[1..];
        assert forall k :: 1 <= k < |r| ==> r[k] == rest[k];
        r
  }

  /** The last piece of a join is what follows the last separator. */
  lemma {:induction false} JoinLast(parts: seq<string>, sep: char)
    requires |parts| >= 2
    ensures Join(parts, sep) == Join(parts[..|parts| - 1], sep) + [sep] + parts[|parts| - 1]
    decreases |parts|
  {
    if |parts| > 2 {
      JoinLast(parts[1..], sep);
      assert parts[1..][..|parts| - 2] == parts[..|parts| - 1][1..];
    }
  }

  /** Splitting a join of separator-free pieces gives the pieces back. */
  lemma {:induction false} SplitJoin(parts: seq<string>, sep: char)
    requires |parts| >= 1
    requires forall k :: 0 <= k < |parts| ==> sep !in parts[k]
    ensures Split(Join(parts, sep), sep) == parts
    decreases |parts|, |parts[0]|
  {
    var s := Join(parts, sep);
    if parts[0] == "" {
      if |parts| == 1 {
      } else {
        assert s == [sep] + Join(parts[1..], sep);
        assert s[1..] == Join(parts[1..], sep);
        SplitJoin(parts[1..], sep);
        assert parts == [""] + parts[1..];
      }
    } else {
      var c := parts[0][0];
      var parts' := [parts[0][1..]] + parts[1..];
      assert parts'[1..] == parts[1..];
      assert Join(parts, sep) == [c] + Join(parts', sep);
      SplitJoin(parts', sep);
      assert s[1..] == Join(parts', sep);
      assert s[0] == c && c != sep;
      assert [c] + parts[0][1..] == parts[0];
      assert [[c] + parts'[0]] + parts'[1..] == parts;
    }
  }

  /** What follows the last separator of `s` (all of `s` if it has none). */
  function AfterLast(s: string, sep: char): string
  {
    if s == [] || s[|s| - 1] == sep then []
    else AfterLast(s[..|s| - 1], sep) + [s[|s| - 1]]
  }

  lemma {:induction false} AfterLastOf(a: string, b: string, sep: char)
    requires sep !in b
    ensures AfterLast(a + [sep] + b, sep) == b
    decreases |b|
  {
    if b != [] {
      var b' := b[..|b| - 1];
      assert (a + [sep] + b)[..|a + [sep] + b| - 1] == a + [sep] + b';
      AfterLastOf(a, b', sep);
      assert b == b' + [b[|b| - 1]];
    }
  }

  /** A string has only one decomposition around its last separator. */
  lemma LastSeparatorUnique(a: string, b: string, a': string, b': string, sep: char)
    requires a + [sep] + b == a' + [sep] + b'
    requires sep !in b && sep !in b'
    ensures a == a' && b == b'
  {
    var s := a + [sep] + b;
    AfterLastOf(a, b, sep);
    AfterLastOf(a', b', sep);
    assert a == s[..|a|] && a' == s[..|a'|];
  }

  /** `' '.join(s.split(' ')[:-1])`: everything before the last separator. */
  lemma BeforeLastSeparator(s: string, before: string, after: string, sep: char)
    requires s == before + [sep] + after
    requires sep !in after
    ensures var parts := Split(s, sep); |parts| >= 2 && Join(parts[..|parts| - 1], sep) == before
  {
    var parts := Split(s, sep);
    assert s[|before|] == sep;
    JoinLast(parts, sep);
    LastSeparatorUnique(Join(parts[..|parts| - 1], sep), parts[|parts| - 1], before, after, sep);
  }

  predicate StartsWith(s: string, prefix: string) {
    |prefix| <= |s| && s[..|prefix|] == prefix
  }

  /** How Python normalises a slice bound `k` on a sequence of length `n`:
      a negative bound counts from the end, and the result is clamped to 0..n. */
  function SliceIndex(n: nat, k: int): (q: nat)
    ensures q <= n
    ensures 0 <= k <= n ==> q == k
    ensures k < 0 && n + k >= 0 ==> q == n + k
    ensures (n + k < 0 ==> q == 0) && (k > n ==> q == n)
  {
    if k < 0 then (if n + k < 0 then 0 else n + k)
    else if k > n then n
    else k
  }

  /** `' ' * k`: empty when `k` is not positive. */
  function Spaces(k: int): (r: string)
    ensures |r| == (if k > 0 then k else 0)
    ensures forall i :: 0 <= i < |r| ==> r[i] == ' '
  {
    if k <= 0 then "" else [' '] + Spaces(k - 1)
  }

  /** `v[1:-1]` when `v` starts and ends with a double quote, else `v`
      (`v[0]` and `v[-1]` need a non-empty `v`). */
  function StripQuotes(v: string): (r: string)
    requires |v| >= 1
    ensures r == v || v == "\"" + r + "\"" || (v == "\"" && r == "")
    ensures v[0] != '"' ==> r == v
    ensures forall k :: 0 <= k < |r| ==> r[k] in v
  {
    if v[0] == '"' && v[|v| - 1] == '"' then
      (if |v| >= 2 then v[1..|v| - 1] else "")
    else v
  }

  lemma StripQuotesOfQuoted(x: string)
    ensures StripQuotes("\"" + x + "\"") == x
  {
    var v := "\"" + x + "\"";
    assert v[1..|v| - 1] == x;
  }

  /** Value of a string of decimal digits. */
  function DigitsValue(ds: string): (n: nat)
    requires forall k :: 0 <= k < |ds| ==> IsDigit(ds[k])
  {
    if ds == [] then 0
    else
      assert IsDigit(ds[|ds| - 1]);
      DigitsValue(ds[..|ds| - 1]) * 10 + (ds[|ds| - 1] as int - '0' as int)
  }

  /** Digits and single underscores between digits, as Python's integer
      literals allow. */
  predicate IsDigitGroup(s: string) {
    && |s| > 0
    && IsDigit(s[0]) && IsDigit(s[|s| - 1])
    && (forall k :: 0 <= k < |s| ==> IsDigit(s[k]) || s[k] == '_')
    && (forall k :: 0 <= k < |s| - 1 ==> !(s[k] == '_' && s[k + 1] == '_'))
  }

  function DropUnderscores(s: string): (r: string)
    requires forall k :: 0 <= k < |s| ==> IsDigit(s[k]) || s[k] == '_'
    ensures forall k :: 0 <= k < |r| ==> IsDigit(r[k])
  {
    if s == [] then []
    else if s[0] == '_' then DropUnderscores(s[1..])
    else [s[0]] + DropUnderscores(s[1..])
  }

  /** `int(s)` on a string: surrounding whitespace, an optional sign, then
      ASCII digits with single underscores between them. Anything else is a
      `ValueError`, here `None`. */
  function PyInt(s: string): (r: Option<int>)
    ensures AllSpace(s) ==> r.None?
    ensures r.Some? ==> |Strip(s)| > 0 && IsDigit(Strip(s)[|Strip(s)| - 1])
  {
    var t := Strip(s);
    var signed := |t| > 0 && (t[0] == '+' || t[0] == '-');
    var body := if signed then t[1..] else t;
    if !IsDigitGroup(body) then None
    else
      var v := DigitsValue(DropUnderscores(body));
      Some(if signed && t[0] == '-' then -(v as int) else v)
  }

  lemma {:induction false} DropUnderscoresOfDigits(ds: string)
    requires forall k :: 0 <= k < |ds| ==> IsDigit(ds[k])
    ensures DropUnderscores(ds) == ds
  {
    if ds != [] {
      DropUnderscoresOfDigits(ds[1..]);
    }
  }

  /** A plain string of ASCII digits reads as its decimal value. */
  lemma PyIntOfDigits(ds: string)
    requires |ds| > 0
    requires forall k :: 0 <= k < |ds| ==> IsDigit(ds[k])
    ensures PyInt(ds) == Some(DigitsValue(ds))
  {
    assert !IsSpace(ds[0]) && !IsSpace(ds[|ds| - 1]);
    assert Strip(ds) == ds;
    assert ds[0] != '+' && ds[0] != '-';
    DigitsAreGroup(ds);
    DropUnderscoresOfDigits(ds);
  }

  lemma DigitsAreGroup(ds: string)
    requires |ds| > 0
    requires forall k :: 0 <= k < |ds| ==> IsDigit(ds[k])
    ensures IsDigitGroup(ds)
  {
    forall k | 0 <= k < |ds| - 1 ensures !(ds[k] == '_' && ds[k + 1] == '_') {
      assert IsDigit(ds[k]);
    }
  }

  /** A character other than the separator, absent from both sides, is
      absent from their join. */
  lemma NotInJoin(a: string, b: string, sep: char, c: char)
    requires c != sep && c !in a && c !in b
    ensures c !in a + [sep] + b
  {
    var s := a + [sep] + b;
    forall k | 0 <= k < |s| ensures s[k] != c {
      if k < |a| {
        assert s[k] == a[k];
      } else if k > |a| {
        assert s[k] == b[k - |a| - 1];
      }
    }
  }

  /** Splitting `a + sep + b` gives exactly `[a, b]`. */
  lemma SplitPair(a: string, b: string, sep: char)
    requires sep !in a && sep !in b
    ensures Split(a + [sep] + b, sep) == [a, b]
  {
    assert Join([a, b], sep) == a + [sep] + b;
    SplitJoin([a, b], sep);
  }
}
