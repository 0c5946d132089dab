/**
 * The Python string primitives the backend relies on: `str.isspace`,
 * `str.strip`, `str.find`, `str.split(sep)`, `sep.join`, `str.splitlines`,
 * and the decimal rendering of an index that the client puts into element ids.
 */
module Text {

  /** Python's `str.isspace` for one character (the Unicode whitespace set). */
  predicate IsSpace(c: char) {
    var n := c as int;
    || (0x09 <= n <= 0x0D) || (0x1C <= n <= 0x20) || n == 0x85 || n == 0xA0
    || n == 0x1680 || (0x2000 <= n <= 0x200A) || n == 0x2028 || n == 0x2029
    || n == 0x202F || n == 0x205F || n == 0x3000
  }

  /** The characters at which Python's `str.splitlines` ends a line. */
  predicate IsLineBreak(c: char) {
    var n := c as int;
    (0x0A <= n <= 0x0D) || (0x1C <= n <= 0x1E) || n == 0x85 || n == 0x2028 || n == 0x2029
  }

  predicate NoLineBreaks(s: string) {
    forall i :: 0 <= i < |s| ==> !IsLineBreak(s[i])
  }

  /** No two consecutive blanks anywhere in `s`. */
  predicate SingleSpaced(s: string) {
    forall i :: 0 <= i < |s| - 1 ==> !(s[i] == ' ' && s[i + 1] == ' ')
  }

  /** Drops leading whitespace (Python `str.lstrip()`). */
  function TrimLeft(s: string): string {
    if s != [] && IsSpace(s[0]) then TrimLeft(s[1..]) else s
  }

  /** Drops trailing whitespace (Python `str.rstrip()`). */
  function TrimRight(s: string): string {
    if s != [] && IsSpace(s[|s| - 1]) then TrimRight(s[..|s| - 1]) else s
  }

  /** `lstrip` removes a run of whitespace at the front and nothing more. */
  lemma {:induction false} TrimLeftShape(s: string)
    ensures var r := TrimLeft(s);
            && |r| <= |s| && r == s[|s| - |r|..]
            && (r != [] ==> !IsSpace(r[0]))
            && (forall i :: 0 <= i < |s| - |r| ==> IsSpace(s[i]))
    decreases |s|
  {
    if s != [] && IsSpace(s[0]) {
      TrimLeftShape(s[1..]);
    }
  }

  /** `rstrip` removes a run of whitespace at the end and nothing more. */
  lemma {:induction false} TrimRightShape(s: string)
    ensures var r := TrimRight(s);
            && |r| <= |s| && r == s[..|r|]
            && (r != [] ==> !IsSpace(r[|r| - 1]))
            && (forall i :: |r| <= i < |s| ==> IsSpace(s[i]))
    decreases |s|
  {
    if s != [] && IsSpace(s[|s| - 1]) {
      TrimRightShape(s[..|s| - 1]);
    }
  }

  /**
   * Python `str.strip()`: whitespace removed at both ends.
   */
  function Strip(s: string): string {
    TrimRight(TrimLeft(s))
  }

  lemma StripSlice(s: string)
    ensures |TrimLeft(s)| <= |s|
    ensures var a := |s| - |TrimLeft(s)|; a + |Strip(s)| <= |s| && Strip(s) == s[a..a + |Strip(s)|]
  {
    TrimLeftShape(s);
    TrimRightShape(TrimLeft(s));
  }

  lemma StripEnds(s: string)
    ensures Strip(s) != [] ==> !IsSpace(Strip(s)[0]) && !IsSpace(Strip(s)[|Strip(s)| - 1])
  {
    var t := TrimLeft(s);
    TrimLeftShape(s);
    TrimRightShape(t);
    if Strip(s) != [] {
      assert Strip(s)[0] == t[0];
    }
  }

  lemma StripBlank(s: string)
    ensures Strip(s) == [] <==> forall i :: 0 <= i < |s| ==> IsSpace(s[i])
  {
    var t := TrimLeft(s);
    TrimLeftShape(s);
    TrimRightShape(t);
    if Strip(s) != [] {
      var a := |s| - |t|;
      assert s[a] == t[0];
    }
  }

  /** Everything `strip` removes, at either end, is whitespace. */
  lemma StripRemovesSpaces(s: string)
    ensures |TrimLeft(s)| <= |s|
    ensures var r := Strip(s); var a := |s| - |TrimLeft(s)|;
            forall i :: 0 <= i < a || a + |r| <= i < |s| ==> IsSpace(s[i])
  {
    var t := TrimLeft(s);
    var a := |s| - |t|;
    var r := Strip(s);
    TrimLeftShape(s);
    TrimRightShape(t);
    forall i | a + |r| <= i < |s| ensures IsSpace(s[i]) {
      assert s[i] == t[i - a];
    }
  }

  /**
   * `strip` leaves the slice of `s` between its leading and its trailing
   * whitespace, and removes nothing but whitespace; it is empty exactly
   * when `s` is blank.
   */
  lemma StripShape(s: string)
    ensures |TrimLeft(s)| <= |s|
    ensures var r := Strip(s); var a := |s| - |TrimLeft(s)|;
            && a + |r| <= |s| && r == s[a..a + |r|]
            && (forall i :: 0 <= i < a || a + |r| <= i < |s| ==> IsSpace(s[i]))
            && (r == [] <==> forall i :: 0 <= i < |s| ==> IsSpace(s[i]))
            && (r != [] ==> !IsSpace(r[0]) && !IsSpace(r[|r| - 1]))
  {
    StripSlice(s);
    StripRemovesSpaces(s);
    StripBlank(s);
    StripEnds(s);
  }

  /** A string with no whitespace at either end is its own strip. */
  predicate Stripped(s: string) {
    s == [] || (!IsSpace(s[0]) && !IsSpace(s[|s| - 1]))
  }

  /** Appending a line break to a stripped string does not change its strip. */
  lemma StripWithNewline(s: string)
    requires Stripped(s)
    ensures Strip(s + "\n") == s
  {
    var t := s + "\n";
    assert t[..|t| - 1] == s;
    if s == [] {
      assert TrimLeft(t) == TrimLeft(t[1..]);
    } else {
      assert t[0] == s[0];
      assert TrimLeft(t) == t;
      assert TrimRight(t) == TrimRight(s);
    }
  }

  /** `pat` occurs in `s` starting at index `k`. */
  predicate OccursAt(s: string, pat: string, k: int) {
    0 <= k && k + |pat| <= |s| && s[k..k + |pat|] == pat
  }

  predicate NoOccurrence(s: string, pat: string) {
    forall k :: 0 <= k <= |s| ==> !OccursAt(s, pat, k)
  }

  /** The first occurrence of `pat` in `s` at or after `i`, or -1. */
  function IndexFrom(s: string, pat: string, i: nat): (r: int)
    requires i <= |s|
    ensures r == -1 || (i <= r && r + |pat| <= |s|)
    decreases |s| - i
  {
    if OccursAt(s, pat, i) then i
    else if i == |s| then -1
    else IndexFrom(s, pat, i + 1)
  }

  /** Python `s.find(pat)`: the first index at which `pat` occurs, or -1. */
  function IndexOf(s: string, pat: string): (r: int)
    ensures r == -1 || (0 <= r && r + |pat| <= |s|)
  {
    IndexFrom(s, pat, 0)
  }

  lemma {:induction false} IndexFromFirst(s: string, pat: string, i: nat)
    requires i <= |s|
    ensures var r := IndexFrom(s, pat, i);
            && (r >= 0 ==> OccursAt(s, pat, r))
            && (forall k :: i <= k && (r < 0 || k < r) ==> !OccursAt(s, pat, k))
    decreases |s| - i
  {
    if !OccursAt(s, pat, i) && i < |s| {
      IndexFromFirst(s, pat, i + 1);
    }
  }

  /** A non-negative result of `find` is an occurrence. */
  lemma IndexOfFound(s: string, pat: string)
    ensures IndexOf(s, pat) >= 0 ==> OccursAt(s, pat, IndexOf(s, pat))
  {
    IndexFromFirst(s, pat, 0);
  }

  /** There is no occurrence before the result of `find`, and none at all when it is -1. */
  lemma IndexOfFirst(s: string, pat: string)
    ensures forall k :: IndexOf(s, pat) < 0 || k < IndexOf(s, pat) ==> !OccursAt(s, pat, k)
  {
    IndexFromFirst(s, pat, 0);
  }

  /** Python `sep.join(parts)`. */
  function JoinWith(parts: seq<string>, sep: string): string {
    if |parts| == 0 then ""
    else if |parts| == 1 then parts[0]
    else parts[0] + sep + JoinWith(parts[1..], sep)
  }

  /** A piece cut off before the first occurrence of `pat` contains no `pat`. */
  lemma PrefixBeforeFirst(s: string, pat: string, k: int)
    requires pat != [] && 0 <= k <= |s|
    requires forall j :: 0 <= j < k ==> !OccursAt(s, pat, j)
    ensures NoOccurrence(s[..k], pat)
  {
    forall j | OccursAt(s[..k], pat, j) ensures false {
      assert s[..k][j..j + |pat|] == s[j..j + |pat|];
      assert OccursAt(s, pat, j);
    }
  }

  /**
   * Python `s.split(sep)` for a non-empty separator: the pieces between the
   * non-overlapping occurrences of `sep`, scanning left to right.
   */
  function SplitOn(s: string, sep: string): (parts: seq<string>)
    requires sep != []
    ensures |parts| >= 1
    decreases |s|
  {
    var k := IndexOf(s, sep);
    if k < 0 then [s] else [s[..k]] + SplitOn(s[k + |sep|..], sep)
  }

  /**
   * No piece contains the separator, and a piece of a text without line
   * breaks has none either.
   */
  lemma {:induction false} SplitOnPieces(s: string, sep: string)
    requires sep != []
    ensures forall i :: 0 <= i < |SplitOn(s, sep)| ==> NoOccurrence(SplitOn(s, sep)[i], sep)
    ensures NoLineBreaks(s) ==> forall i :: 0 <= i < |SplitOn(s, sep)| ==> NoLineBreaks(SplitOn(s, sep)[i])
    decreases |s|
  {
    var k := IndexOf(s, sep);
    IndexOfFirst(s, sep);
    if k < 0 {
      PrefixBeforeFirst(s, sep, |s|);
      assert s[..|s|] == s;
    } else {
      PrefixBeforeFirst(s, sep, k);
      var rest := s[k + |sep|..];
      SplitOnPieces(rest, sep);
      var parts := SplitOn(s, sep);
      assert parts == [s[..k]] + SplitOn(rest, sep);
      if NoLineBreaks(s) {
        forall i | 0 <= i < |rest| ensures !IsLineBreak(rest[i]) {
          assert rest[i] == s[k + |sep| + i];
        }
        assert NoLineBreaks(s[..k]);
      }
    }
  }

  lemma JoinCons(head: string, tail: seq<string>, sep: string)
    requires tail != []
    ensures JoinWith([head] + tail, sep) == head + sep + JoinWith(tail, sep)
  {
    assert ([head] + tail)[1..] == tail;
  }

  /** A string is the text before an occurrence, the occurrence, and the text after it. */
  lemma AroundOccurrence(s: string, pat: string, k: int)
    requires OccursAt(s, pat, k)
    ensures s == s[..k] + pat + s[k + |pat|..]
  {
  }

  /** Splitting and re-joining with the same separator gives back the input. */
  lemma {:induction false} JoinSplit(s: string, sep: string)
    requires sep != []
    ensures JoinWith(SplitOn(s, sep), sep) == s
    decreases |s|
  {
    var k := IndexOf(s, sep);
    if k >= 0 {
      var rest := s[k + |sep|..];
      JoinSplit(rest, sep);
      var tail := SplitOn(rest, sep);
      assert SplitOn(s, sep) == [s[..k]] + tail;
      JoinCons(s[..k], tail, sep);
      IndexOfFound(s, sep);
      AroundOccurrence(s, sep, k);
    }
  }

  /** The index of the first line break at or after `i`, or `|s|`. */
  function NextLineBreak(s: string, i: nat): (r: nat)
    requires i <= |s|
    ensures i <= r <= |s|
    ensures r < |s| ==> IsLineBreak(s[r])
    ensures forall k :: i <= k < r ==> !IsLineBreak(s[k])
    decreases |s| - i
  {
    if i == |s| || IsLineBreak(s[i]) then i else NextLineBreak(s, i + 1)
  }

  /**
   * Python `s.splitlines()`: the text between line breaks, "\r\n" counting as
   * one break, and no empty piece after a final break.
   */
  function SplitLines(s: string): (lines: seq<string>)
    ensures forall i :: 0 <= i < |lines| ==> NoLineBreaks(lines[i])
    decreases |s|
  {
    if s == [] then []
    else
      var k := NextLineBreak(s, 0);
      if k == |s| then [s]
      else [s[..k]] + SplitLines(s[k + BreakWidth(s, k)..])
  }

  /** The length of the line break at `k`: 2 for "\r\n", 1 otherwise. */
  function BreakWidth(s: string, k: nat): (w: nat)
    requires k < |s|
    ensures 1 <= w && k + w <= |s|
  {
    if s[k] == '\r' && k + 1 < |s| && s[k + 1] == '\n' then 2 else 1
  }

  lemma SplitLinesNonEmpty(s: string)
    requires s != []
    ensures SplitLines(s) != []
  {
  }

  lemma SplitLinesNoBreak(s: string)
    requires s != [] && NextLineBreak(s, 0) == |s|
    ensures SplitLines(s) == [s]
  {
  }

  lemma SplitLinesAtBreak(s: string, k: nat)
    requires k < |s| && NextLineBreak(s, 0) == k
    ensures SplitLines(s) == [s[..k]] + SplitLines(s[k + BreakWidth(s, k)..])
  {
  }

  /** A text whose only line-break character is "\n". */
  predicate OnlyNewlines(s: string) {
    forall i :: 0 <= i < |s| && IsLineBreak(s[i]) ==> s[i] == '\n'
  }

  /** In `s + "\n"` the first line break is the first "\n" of `s`, or the added one. */
  lemma FirstNewline(s: string)
    requires OnlyNewlines(s)
    ensures var k := NextLineBreak(s + "\n", 0);
            k <= |s| && (k < |s| ==> s[k] == '\n') && (s + "\n")[..k] == s[..k]
  {
    var t := s + "\n";
    assert IsLineBreak(t[|s|]);
    var k := NextLineBreak(t, 0);
    if k < |s| {
      assert t[k] == s[k];
    }
  }

  lemma OnlyNewlinesSuffix(s: string, j: nat)
    requires OnlyNewlines(s) && j <= |s|
    ensures OnlyNewlines(s[j..])
  {
    var rest := s[j..];
    forall i | 0 <= i < |rest| && IsLineBreak(rest[i]) ensures rest[i] == '\n' {
      assert rest[i] == s[j + i];
    }
  }

  lemma AroundIndex(s: string, k: nat)
    requires k < |s|
    ensures s == s[..k] + [s[k]] + s[k + 1..]
  {
  }

  lemma SuffixOfAppend(s: string, j: nat, x: string)
    requires j <= |s|
    ensures (s + x)[j..] == s[j..] + x
  {
  }

  /**
   * For a text broken only by "\n", the pieces of `splitlines` of the text
   * with a final "\n" are exactly the lines: joining them with "\n" gives
   * the text back.
   */
  lemma {:induction false} SplitLinesJoin(s: string)
    requires OnlyNewlines(s)
    ensures JoinWith(SplitLines(s + "\n"), "\n") == s
    decreases |s|
  {
    var t := s + "\n";
    var k := NextLineBreak(t, 0);
    FirstNewline(s);
    SplitLinesAtBreak(t, k);
    if k == |s| {
      assert t[k + 1..] == [];
    } else {
      var rest := s[k + 1..];
      OnlyNewlinesSuffix(s, k + 1);
      SplitLinesJoin(rest);
      SuffixOfAppend(s, k + 1, "\n");
      var tail := SplitLines(rest + "\n");
      SplitLinesNonEmpty(rest + "\n");
      assert SplitLines(t) == [s[..k]] + tail;
      JoinCons(s[..k], tail, "\n");
      AroundIndex(s, k);
    }
  }

  /** The text with every line-break character removed. */
  function DropLineBreaks(s: string): string
    decreases |s|
  {
    if s == [] then []
    else (if IsLineBreak(s[0]) then [] else [s[0]]) + DropLineBreaks(s[1..])
  }

  lemma {:induction false} DropLineBreaksAppend(a: string, b: string)
    ensures DropLineBreaks(a + b) == DropLineBreaks(a) + DropLineBreaks(b)
    decreases |a|
  {
    if a != [] {
      var head := if IsLineBreak(a[0]) then [] else [a[0]];
      assert (a + b)[0] == a[0] && (a + b)[1..] == a[1..] + b;
      assert DropLineBreaks(a + b) == head + DropLineBreaks(a[1..] + b);
      DropLineBreaksAppend(a[1..], b);
      assert DropLineBreaks(a) == head + DropLineBreaks(a[1..]);
    } else {
      assert a + b == b;
    }
  }

  lemma {:induction false} DropLineBreaksKeeps(s: string)
    requires NoLineBreaks(s)
    ensures DropLineBreaks(s) == s
    decreases |s|
  {
    if s != [] {
      DropLineBreaksKeeps(s[1..]);
    }
  }

  /** A line break, of either width, drops out entirely. */
  lemma DropBreak(s: string, k: nat)
    requires k < |s| && IsLineBreak(s[k])
    ensures DropLineBreaks(s[k..k + BreakWidth(s, k)]) == []
  {
    var brk := s[k..k + BreakWidth(s, k)];
    assert IsLineBreak(brk[0]);
    var rest := brk[1..];
    if |brk| == 2 {
      assert IsLineBreak(rest[0]) && rest[1..] == [];
      assert DropLineBreaks(rest) == [];
    } else {
      assert rest == [];
    }
  }

  /**
   * `splitlines` loses only the line breaks: its pieces, concatenated, are
   * the text with its line-break characters removed.
   */
  lemma {:induction false} SplitLinesContent(s: string)
    ensures JoinWith(SplitLines(s), "") == DropLineBreaks(s)
    decreases |s|
  {
    if s != [] {
      var k := NextLineBreak(s, 0);
      var line := s[..k];
      assert NoLineBreaks(line);
      DropLineBreaksKeeps(line);
      if k == |s| {
        SplitLinesNoBreak(s);
        assert line == s;
      } else {
        var w := BreakWidth(s, k);
        var rest := s[k + w..];
        var brk := s[k..k + w];
        assert s == line + brk + rest;
        DropLineBreaksAppend(line + brk, rest);
        DropLineBreaksAppend(line, brk);
        DropBreak(s, k);
        SplitLinesContent(rest);
        SplitLinesAtBreak(s, k);
        var tail := SplitLines(rest);
        if tail != [] {
          JoinCons(line, tail, "");
        } else {
          assert [line] + tail == [line];
        }
      }
    }
  }

  /** The text with every whitespace character removed: what is left to read. */
  function DropSpaces(s: string): string
    decreases |s|
  {
    if s == [] then []
    else (if IsSpace(s[0]) then [] else [s[0]]) + DropSpaces(s[1..])
  }

  lemma {:induction false} DropSpacesAppend(a: string, b: string)
    ensures DropSpaces(a + b) == DropSpaces(a) + DropSpaces(b)
    decreases |a|
  {
    if a != [] {
      var head := if IsSpace(a[0]) then [] else [a[0]];
      assert (a + b)[0] == a[0] && (a + b)[1..] == a[1..] + b;
      assert DropSpaces(a + b) == head + DropSpaces(a[1..] + b);
      DropSpacesAppend(a[1..], b);
      assert DropSpaces(a) == head + DropSpaces(a[1..]);
    } else {
      assert a + b == b;
    }
  }

  /** Nothing is left of a text exactly when it is all whitespace. */
  lemma {:induction false} DropSpacesBlank(s: string)
    ensures DropSpaces(s) == [] <==> forall i :: 0 <= i < |s| ==> IsSpace(s[i])
    decreases |s|
  {
    if s != [] {
      DropSpacesBlank(s[1..]);
      assert forall i :: 1 <= i < |s| ==> s[i] == s[1..][i - 1];
      if !IsSpace(s[0]) {
        assert DropSpaces(s)[0] == s[0];
      }
    }
  }

  /** `strip` removes only whitespace. */
  lemma StripKeepsText(s: string)
    ensures DropSpaces(Strip(s)) == DropSpaces(s)
  {
    StripShape(s);
    var r := Strip(s);
    var a := |s| - |TrimLeft(s)|;
    var front := s[..a];
    var back := s[a + |r|..];
    assert s == front + r + back;
    forall i | 0 <= i < |front| ensures IsSpace(front[i]) {
      assert front[i] == s[i];
    }
    forall i | 0 <= i < |back| ensures IsSpace(back[i]) {
      assert back[i] == s[a + |r| + i];
    }
    DropSpacesBlank(front);
    DropSpacesBlank(back);
    DropSpacesAppend(front + r, back);
    DropSpacesAppend(front, r);
  }

  /** Every line-break character is whitespace, so removing them first changes nothing. */
  lemma {:induction false} DropSpacesLineBreaks(s: string)
    ensures DropSpaces(DropLineBreaks(s)) == DropSpaces(s)
    decreases |s|
  {
    if s != [] {
      DropSpacesLineBreaks(s[1..]);
      var head := if IsLineBreak(s[0]) then [] else [s[0]];
      assert DropLineBreaks(s) == head + DropLineBreaks(s[1..]);
      DropSpacesAppend(head, DropLineBreaks(s[1..]));
      if !IsLineBreak(s[0]) {
        assert head[1..] == [];
      }
    }
  }

  /** What is left to read of each of the pieces, in order. */
  function DropSpacesEach(parts: seq<string>): string
    decreases |parts|
  {
    if parts == [] then [] else DropSpaces(parts[0]) + DropSpacesEach(parts[1..])
  }

  lemma {:induction false} DropSpacesEachAppend(a: seq<string>, b: seq<string>)
    ensures DropSpacesEach(a + b) == DropSpacesEach(a) + DropSpacesEach(b)
    decreases |a|
  {
    if a != [] {
      assert (a + b)[0] == a[0] && (a + b)[1..] == a[1..] + b;
      DropSpacesEachAppend(a[1..], b);
    } else {
      assert a + b == b;
    }
  }

  /** Joining with a separator of whitespace adds nothing to read. */
  lemma {:induction false} JoinKeepsText(parts: seq<string>, sep: string)
    requires forall i :: 0 <= i < |sep| ==> IsSpace(sep[i])
    ensures DropSpaces(JoinWith(parts, sep)) == DropSpacesEach(parts)
    decreases |parts|
  {
    if |parts| == 1 {
      assert parts[1..] == [];
    } else if |parts| > 1 {
      var rest := JoinWith(parts[1..], sep);
      JoinKeepsText(parts[1..], sep);
      DropSpacesBlank(sep);
      DropSpacesAppend(parts[0] + sep, rest);
      DropSpacesAppend(parts[0], sep);
    }
  }

  /** Splitting at a separator of whitespace loses nothing to read. */
  lemma SplitKeepsText(s: string, sep: string)
    requires sep != []
    requires forall i :: 0 <= i < |sep| ==> IsSpace(sep[i])
    ensures DropSpacesEach(SplitOn(s, sep)) == DropSpaces(s)
  {
    JoinSplit(s, sep);
    JoinKeepsText(SplitOn(s, sep), sep);
  }

  /** `splitlines` loses nothing to read: it removes only line breaks. */
  lemma SplitLinesKeepsText(s: string)
    ensures DropSpacesEach(SplitLines(s)) == DropSpaces(s)
  {
    SplitLinesContent(s);
    JoinKeepsText(SplitLines(s), "");
    DropSpacesLineBreaks(s);
  }

  function DigitChar(d: nat): (c: char)
    requires d < 10
    ensures '0' <= c <= '9'
  {
    ('0' as int + d) as char
  }

  predicate IsDigits(s: string) {
    forall i :: 0 <= i < |s| ==> '0' <= s[i] <= '9'
  }

  /** The decimal text of `n`, as a JS template literal renders a number. */
  function NatToString(n: nat): (s: string)
    ensures |s| >= 1 && IsDigits(s)
    decreases n
  {
    if n < 10 then [DigitChar(n)] else NatToString(n / 10) + [DigitChar(n % 10)]
  }

  /** The value of a string of decimal digits. */
  function ParseNat(s: string): nat
    requires IsDigits(s)
    decreases |s|
  {
    if s == [] then 0 else ParseNat(s[..|s| - 1]) * 10 + (s[|s| - 1] as int - '0' as int)
  }

  lemma {:induction false} ParseNatToString(n: nat)
    ensures ParseNat(NatToString(n)) == n
    decreases n
  {
    if n >= 10 {
      var s := NatToString(n);
      ParseNatToString(n / 10);
      assert s[..|s| - 1] == NatToString(n / 10);
    }
  }

  /** Different numbers have different decimal texts. */
  lemma NatToStringInjective(m: nat, n: nat)
    requires NatToString(m) == NatToString(n)
    ensures m == n
  {
    ParseNatToString(m);
    ParseNatToString(n);
  }
}
