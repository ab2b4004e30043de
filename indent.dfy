// The auto-indent engine of CodeEditor: the input filter's guard and
// autoIndent, which, when a single '\n' is typed in the middle of the
// buffer, appends to it the leading whitespace of the current line and
// possibly one more '\t'.
//
// `dest` is the buffer before the edit, [dstart, dend) the range being
// replaced and `source` the text being inserted.

module Indent {
  import opened TextUtil

  /** The characters that, as the last non-blank one before the cursor, open a new level. */
  predicate IsIndentTrigger(c: char) {
    c in {'{', '+', '-', '*', '/', '%', '^', '='}
  }

  /** The index of the last '\n' before position `i`, or -1 when there is none. */
  function LastNewline(s: string, i: nat): (k: int)
    requires i <= |s|
    ensures -1 <= k < i
  {
    if i == 0 then -1
    else if s[i - 1] == '\n' then i - 1
    else LastNewline(s, i - 1)
  }

  /** LastNewline finds a '\n', and none lies between it and `i`. */
  lemma {:induction false} LastNewlineSpec(s: string, i: nat)
    requires i <= |s|
    ensures var k := LastNewline(s, i);
            && (k >= 0 ==> s[k] == '\n')
            && forall j :: k < j < i ==> s[j] != '\n'
    decreases i
  {
    if i > 0 && s[i - 1] != '\n' {
      LastNewlineSpec(s, i - 1);
    }
  }

  /** The two properties of LastNewline determine it. */
  lemma {:induction false} LastNewlineIs(s: string, i: nat, k: int)
    requires i <= |s| && -1 <= k < i
    requires k >= 0 ==> s[k] == '\n'
    requires forall j :: k < j < i ==> s[j] != '\n'
    ensures LastNewline(s, i) == k
    decreases i
  {
    if i > 0 && s[i - 1] != '\n' {
      LastNewlineIs(s, i - 1, k);
    }
  }

  /**
   * The level change a line (the text between the last '\n' and the
   * cursor) asks for: one down for every '(', one up for every ')', and one
   * more down when its last non-blank character is an indent trigger.
   * A negative level adds a '\t'.
   */
  function Level(line: string): int {
    var t := TrimRight(line);
    Count(line, ')') - Count(line, '(') - (if t != [] && IsIndentTrigger(t[|t| - 1]) then 1 else 0)
  }

  /** Putting one character in front of a string changes its trimmed form so. */
  lemma {:induction false} TrimRightCons(c: char, s: string)
    ensures TrimRight([c] + s)
            == if TrimRight(s) != [] then [c] + TrimRight(s) else if IsBlank(c) then [] else [c]
    decreases |s|
  {
    var cs := [c] + s;
    if s == [] {
      assert cs == [c];
      if IsBlank(c) {
        assert cs[..0] == [];
      }
    } else if IsBlank(s[|s| - 1]) {
      var init := s[..|s| - 1];
      assert cs[..|cs| - 1] == [c] + init;
      TrimRightCons(c, init);
    } else {
      assert cs[|cs| - 1] == s[|s| - 1];
    }
  }

  /** How the level of a line changes when the backward scan reaches one more character. */
  lemma LevelCons(c: char, s: string)
    ensures Level([c] + s)
            == Level(s) + (if c == ')' then 1 else 0) - (if c == '(' then 1 else 0)
               - (if TrimRight(s) == [] && !IsBlank(c) && IsIndentTrigger(c) then 1 else 0)
    ensures (TrimRight([c] + s) != []) == (TrimRight(s) != [] || !IsBlank(c))
  {
    TrimRightCons(c, s);
    assert multiset([c] + s) == multiset([c]) + multiset(s);
    assert Count([c] + s, ')') == Count(s, ')') + (if c == ')' then 1 else 0);
    assert Count([c] + s, '(') == Count(s, '(') + (if c == '(' then 1 else 0);
  }

  /** One step of the backward scan over dest[i..dstart]. */
  lemma ScanStep(dest: string, i: nat, dstart: nat)
    requires i < dstart <= |dest|
    ensures Level(dest[i..dstart])
            == Level(dest[i + 1..dstart]) + (if dest[i] == ')' then 1 else 0) - (if dest[i] == '(' then 1 else 0)
               - (if TrimRight(dest[i + 1..dstart]) == [] && !IsBlank(dest[i]) && IsIndentTrigger(dest[i]) then 1 else 0)
    ensures (TrimRight(dest[i..dstart]) != []) == (TrimRight(dest[i + 1..dstart]) != [] || !IsBlank(dest[i]))
  {
    assert dest[i..dstart] == [dest[i]] + dest[i + 1..dstart];
    LevelCons(dest[i], dest[i + 1..dstart]);
  }

  /** The first position in [i, hi) that is not a blank, or hi. */
  function SkipBlanks(s: string, i: nat, hi: nat): (k: nat)
    requires i <= hi <= |s|
    ensures i <= k <= hi
    decreases hi - i
  {
    if i == hi || !IsBlank(s[i]) then i else SkipBlanks(s, i + 1, hi)
  }

  /** SkipBlanks passes over blanks only and stops at a non-blank or at `hi`. */
  lemma {:induction false} SkipBlanksSpec(s: string, i: nat, hi: nat)
    requires i <= hi <= |s|
    ensures var k := SkipBlanks(s, i, hi);
            && (forall j :: i <= j < k ==> IsBlank(s[j]))
            && (k < hi ==> !IsBlank(s[k]))
    decreases hi - i
  {
    if i < hi && IsBlank(s[i]) {
      SkipBlanksSpec(s, i + 1, hi);
    }
  }

  /** The three properties of SkipBlanks determine it. */
  lemma {:induction false} SkipBlanksIs(s: string, i: nat, hi: nat, k: nat)
    requires i <= k <= hi <= |s|
    requires forall j :: i <= j < k ==> IsBlank(s[j])
    requires k < hi ==> !IsBlank(s[k])
    ensures SkipBlanks(s, i, hi) == k
    decreases k - i
  {
    if i < k {
      SkipBlanksIs(s, i + 1, hi, k);
    }
  }

  /**
   * Where the copy of the line's indentation stops.  It copies the blanks
   * from `from` on, up to `dend`.  When the character at the cursor is not
   * '\n' and the first non-blank is a '/' with one more character before
   * dend, it copies that '/' and the character after it as well.
   */
  function CopyEnd(dest: string, from: nat, dend: nat, atCursor: char): (e: nat)
    requires from <= dend <= |dest|
    ensures from <= e <= dend
  {
    var b := SkipBlanks(dest, from, dend);
    if atCursor != '\n' && b + 1 < dend && dest[b] == '/' then b + 2 else b
  }

  /**
   * What CopyEnd copies: the whole run of blanks from `from` when the
   * character at the cursor is '\n'; otherwise that run, or the run and a
   * '/' with the character after it.
   */
  lemma CopyEndShape(dest: string, from: nat, dend: nat, atCursor: char)
    requires from <= dend <= |dest|
    ensures var e := CopyEnd(dest, from, dend, atCursor);
            atCursor == '\n' ==>
              (forall j :: from <= j < e ==> IsBlank(dest[j])) && (e == dend || !IsBlank(dest[e]))
    ensures var e := CopyEnd(dest, from, dend, atCursor);
            || ((forall j :: from <= j < e ==> IsBlank(dest[j])) && (e == dend || !IsBlank(dest[e])))
            || (&& atCursor != '\n' && from + 2 <= e && dest[e - 2] == '/'
                && forall j :: from <= j < e - 2 ==> IsBlank(dest[j]))
  {
    SkipBlanksSpec(dest, from, dend);
  }

  /**
   * Conversely, whenever the character at the cursor is not '\n' and the
   * first non-blank from `from` is a '/' with one more character before
   * dend, the copy takes the blanks, the '/' and that character, whatever
   * it is: the comment test compares the '/' with itself.
   */
  lemma SlashCopiesTwo(dest: string, from: nat, dend: nat, atCursor: char, b: nat)
    requires from <= b && b + 1 < dend <= |dest|
    requires forall j :: from <= j < b ==> IsBlank(dest[j])
    requires dest[b] == '/' && atCursor != '\n'
    ensures CopyEnd(dest, from, dend, atCursor) == b + 2
  {
    SkipBlanksIs(dest, from, dend, b);
  }

  /**
   * The text autoIndent appends to `source`: the indentation of the line
   * the cursor is on (only when a '\n' precedes the cursor), then one '\t'
   * when that line's level is negative.
   */
  function Indentation(dest: string, dstart: nat, dend: nat): string
    requires dstart < |dest| && dstart <= dend <= |dest|
  {
    Copied(dest, dstart, dend) + ExtraTab(dest, dstart)
  }

  /** The copied part: the start of the cursor's line, up to CopyEnd; nothing on the first line. */
  function Copied(dest: string, dstart: nat, dend: nat): string
    requires dstart < |dest| && dstart <= dend <= |dest|
  {
    var k := LastNewline(dest, dstart);
    if k < 0 then "" else dest[k + 1..CopyEnd(dest, k + 1, dend, dest[dstart])]
  }

  /** One '\t' when the level of the line before the cursor is negative. */
  function ExtraTab(dest: string, dstart: nat): string
    requires dstart <= |dest|
  {
    if Level(dest[LastNewline(dest, dstart) + 1..dstart]) < 0 then "\t" else ""
  }

  /**
   * The first half of autoIndent: the backward scan from the cursor to the
   * '\n' that starts its line (or to the start of the buffer), counting the
   * level on the way.
   */
  method ScanLine(dest: string, dstart: nat) returns (istart: int, pt: int)
    requires dstart <= |dest|
    ensures istart == LastNewline(dest, dstart)
    ensures pt == Level(dest[istart + 1..dstart])
  {
    istart := dstart - 1;
    var dataBefore := false;
    pt := 0;
    while istart > -1
      invariant -1 <= istart < dstart
      invariant forall j :: istart < j < dstart ==> dest[j] != '\n'
      invariant dataBefore == (TrimRight(dest[istart + 1..dstart]) != [])
      invariant pt == Level(dest[istart + 1..dstart])
      decreases istart
    {
      var c := dest[istart];
      if c == '\n' {
        break;
      }
      ScanStep(dest, istart, dstart);
      if c != ' ' && c != '\t' {
        if !dataBefore {
          if c == '{' || c == '+' || c == '-' || c == '*' || c == '/' || c == '%' || c == '^' || c == '=' {
            pt := pt - 1;
          }
          dataBefore := true;
        }
        if c == '(' {
          pt := pt - 1;
        } else if c == ')' {
          pt := pt + 1;
        }
      }
      istart := istart - 1;
    }
    LastNewlineIs(dest, dstart, istart);
  }

  /**
   * autoIndent: the backward scan, then a forward copy of the line's
   * leading blanks, then one '\t' when the level is negative.
   */
  method AutoIndent(source: string, dest: string, dstart: nat, dend: nat) returns (r: string)
    requires dstart < |dest| && dstart <= dend <= |dest|
    ensures r == source + Indentation(dest, dstart, dend)
  {
    var indent := "";
    var istart, pt := ScanLine(dest, dstart);
    ghost var k := istart;

    if istart > -1 {
      var charAtCursor := dest[dstart];
      istart := istart + 1;
      var iend := istart;
      while iend < dend
        invariant istart <= iend <= dend
        invariant SkipBlanks(dest, iend, dend) == SkipBlanks(dest, istart, dend)
        decreases dend - iend
      {
        var c := dest[iend];
        if charAtCursor != '\n' && c == '/' && iend + 1 < dend && dest[iend] == c {
          iend := iend + 2;
          break;
        }
        if c != ' ' && c != '\t' {
          break;
        }
        iend := iend + 1;
      }
      assert iend == CopyEnd(dest, k + 1, dend, dest[dstart]);
      indent := indent + dest[istart..iend];
    }
    assert indent == Copied(dest, dstart, dend);

    ghost var tab := ExtraTab(dest, dstart);
    if pt < 0 {
      indent := indent + "\t";
      assert tab == "\t";
    } else {
      assert tab == "";
    }
    r := source + indent;
  }

  // ---------------------------------------------------------------------
  // What the indentation is made of
  // ---------------------------------------------------------------------

  /** Every character of `s` is a space or a tab. */
  predicate AllBlank(s: string) {
    forall j :: 0 <= j < |s| ==> IsBlank(s[j])
  }

  /**
   * What is copied from `from`, the position after the line's '\n': a
   * prefix of the rest of the line up to dend, made of blanks or, through
   * the comment quirk, of blanks followed by a '/' and the character after it.
   */
  lemma CopiedRun(dest: string, from: nat, dend: nat, atCursor: char)
    requires from <= dend <= |dest|
    ensures var c := dest[from..CopyEnd(dest, from, dend, atCursor)];
            && c <= dest[from..dend]
            && (|| AllBlank(c)
                || (&& atCursor != '\n' && |c| >= 2 && c[|c| - 2] == '/'
                    && forall j :: 0 <= j < |c| - 2 ==> IsBlank(c[j])))
  {
    var e := CopyEnd(dest, from, dend, atCursor);
    CopyEndShape(dest, from, dend, atCursor);
    SlicePrefix(dest, from, e, dend);
    var c := dest[from..e];
    assert forall j :: 0 <= j < |c| ==> c[j] == dest[from + j];
  }

  /** A shorter slice from the same start is a prefix of a longer one. */
  lemma SlicePrefix(s: string, a: nat, b: nat, c: nat)
    requires a <= b <= c <= |s|
    ensures s[a..b] <= s[a..c]
  {
    assert forall j :: 0 <= j < b - a ==> s[a..b][j] == s[a + j] == s[a..c][j];
  }

  /** A newline typed on the first line copies nothing, however that line is indented. */
  lemma FirstLineCopiesNothing(dest: string, dstart: nat, dend: nat)
    requires dstart < |dest| && dstart <= dend <= |dest|
    requires forall j :: 0 <= j < dstart ==> dest[j] != '\n'
    ensures Indentation(dest, dstart, dend) == if Level(dest[..dstart]) < 0 then "\t" else ""
  {
    LastNewlineIs(dest, dstart, -1);
    assert dest[0..dstart] == dest[..dstart];
  }

  /** With a '\n' before the cursor and '\n' at the cursor, exactly the line's leading blanks are copied. */
  lemma NewlineAtCursorCopiesLeadingBlanks(dest: string, dstart: nat, dend: nat)
    requires dstart < |dest| && dstart <= dend <= |dest| && dest[dstart] == '\n'
    requires LastNewline(dest, dstart) >= 0
    ensures var k := LastNewline(dest, dstart);
            var e := CopyEnd(dest, k + 1, dend, '\n');
            && Indentation(dest, dstart, dend)
               == dest[k + 1..e] + (if Level(dest[k + 1..dstart]) < 0 then "\t" else "")
            && (forall j :: k + 1 <= j < e ==> IsBlank(dest[j]))
            && (e == dend || !IsBlank(dest[e]))
  {
    CopyEndShape(dest, LastNewline(dest, dstart) + 1, dend, '\n');
  }

  /**
   * Only the current line matters: two buffers that agree from some '\n'
   * before the cursor on give the same indentation, whatever the lines
   * before that '\n' hold.
   */
  lemma EarlierLinesIgnored(d1: string, d2: string, dstart: nat, dend: nat, n: nat)
    requires |d1| == |d2| && dstart < |d1| && dstart <= dend <= |d1|
    requires n < dstart && d1[n] == '\n'
    requires forall j :: n <= j < |d1| ==> d1[j] == d2[j]
    ensures Indentation(d1, dstart, dend) == Indentation(d2, dstart, dend)
  {
    var k := LastNewline(d1, dstart);
    assert n <= k by {
      LastNewlineSpec(d1, dstart);
    }
    assert LastNewline(d2, dstart) == k by {
      LastNewlineSpec(d1, dstart);
      LastNewlineIs(d2, dstart, k);
    }
    CopiedAgree(d1, d2, dstart, dend, n);
    ExtraTabAgree(d1, d2, dstart, n);
  }

  /** The copied part of two buffers that agree from before the cursor's line on. */
  lemma CopiedAgree(d1: string, d2: string, dstart: nat, dend: nat, n: nat)
    requires |d1| == |d2| && dstart < |d1| && dstart <= dend <= |d1|
    requires n <= LastNewline(d1, dstart) == LastNewline(d2, dstart)
    requires forall j :: n <= j < |d1| ==> d1[j] == d2[j]
    ensures Copied(d1, dstart, dend) == Copied(d2, dstart, dend)
  {
    var k := LastNewline(d1, dstart);
    if k >= 0 {
      var c := d1[dstart];
      assert d2[dstart] == c;
      var e := CopyEnd(d1, k + 1, dend, c);
      CopyEndAgree(d1, d2, n, k + 1, dend, c);
      SliceAgree(d1, d2, n, k + 1, e);
      assert Copied(d1, dstart, dend) == d1[k + 1..e];
      assert Copied(d2, dstart, dend) == d2[k + 1..e];
    }
  }

  /** The extra tab of two buffers that agree from before the cursor's line on. */
  lemma ExtraTabAgree(d1: string, d2: string, dstart: nat, n: nat)
    requires |d1| == |d2| && dstart <= |d1|
    requires n <= LastNewline(d1, dstart) == LastNewline(d2, dstart)
    requires forall j :: n <= j < |d1| ==> d1[j] == d2[j]
    ensures ExtraTab(d1, dstart) == ExtraTab(d2, dstart)
  {
    var k := LastNewline(d1, dstart);
    SliceAgree(d1, d2, n, k + 1, dstart);
    var line := d1[k + 1..dstart];
    ExtraTabOfLine(d1, dstart, line);
    ExtraTabOfLine(d2, dstart, line);
  }

  /** The extra tab depends on the cursor's line only. */
  lemma ExtraTabOfLine(d: string, dstart: nat, line: string)
    requires dstart <= |d| && d[LastNewline(d, dstart) + 1..dstart] == line
    ensures ExtraTab(d, dstart) == if Level(line) < 0 then "\t" else ""
  {
  }

  /** Two strings that agree from `n` on have the same slices there. */
  lemma SliceAgree(d1: string, d2: string, n: nat, a: nat, b: nat)
    requires |d1| == |d2| && n <= a <= b <= |d1|
    requires forall j :: n <= j < |d1| ==> d1[j] == d2[j]
    ensures d1[a..b] == d2[a..b]
  {
    assert forall j :: 0 <= j < b - a ==> d1[a..b][j] == d1[a + j] == d2[a + j] == d2[a..b][j];
  }

  /** Two strings that agree from `n` on stop the copy at the same place. */
  lemma CopyEndAgree(d1: string, d2: string, n: nat, from: nat, dend: nat, atCursor: char)
    requires |d1| == |d2| && n <= from <= dend <= |d1|
    requires forall j :: n <= j < |d1| ==> d1[j] == d2[j]
    ensures CopyEnd(d1, from, dend, atCursor) == CopyEnd(d2, from, dend, atCursor)
  {
    SkipBlanksSpec(d1, from, dend);
    SkipBlanksIs(d2, from, dend, SkipBlanks(d1, from, dend));
  }

  // ---------------------------------------------------------------------
  // Examples
  // ---------------------------------------------------------------------

  /** After an opening parenthesis one more '\t' is added to the copied indentation. */
  lemma OpenParenthesisIndents()
    ensures Indentation("\n\tf(\n", 4, 4) == "\t\t"
  {
    OpenParenthesisParts();
  }

  lemma OpenParenthesisParts()
    ensures Copied("\n\tf(\n", 4, 4) == "\t" && ExtraTab("\n\tf(\n", 4) == "\t"
  {
    var d := "\n\tf(\n";
    LastNewlineIs(d, 4, 0);
    SkipBlanksIs(d, 1, 4, 2);
    assert d[1..4] == "\tf(";
    CountAbsent("\tf(", ')');
    assert "\tf(" == "\tf" + ['('];
    CountAbsent("\tf", '(');
  }

  /**
   * Only the last non-blank character of the line is tested: a line that
   * ends in a value keeps its indentation...
   */
  lemma ValueDoesNotIndent()
    ensures Indentation("\n\tx=1\n", 5, 5) == "\t"
  {
    ValueParts();
  }

  lemma ValueParts()
    ensures Copied("\n\tx=1\n", 5, 5) == "\t" && ExtraTab("\n\tx=1\n", 5) == ""
  {
    var d := "\n\tx=1\n";
    LastNewlineIs(d, 5, 0);
    SkipBlanksIs(d, 1, 5, 2);
    assert d[1..5] == "\tx=1";
    CountAbsent("\tx=1", '(');
    CountAbsent("\tx=1", ')');
  }

  /** ... while the same line ending in '=' gets one more '\t'. */
  lemma TrailingOperatorIndents()
    ensures Indentation("\n\tx=\n", 4, 4) == "\t\t"
  {
    TrailingOperatorParts();
  }

  lemma TrailingOperatorParts()
    ensures Copied("\n\tx=\n", 4, 4) == "\t" && ExtraTab("\n\tx=\n", 4) == "\t"
  {
    var d := "\n\tx=\n";
    LastNewlineIs(d, 4, 0);
    SkipBlanksIs(d, 1, 4, 2);
    assert d[1..4] == "\tx=";
    CountAbsent("\tx=", '(');
    CountAbsent("\tx=", ')');
  }

  /**
   * Breaking a line in its middle: a '/' at the start of its text is copied
   * together with the character after it, here "/x", which is no comment.
   */
  lemma SlashQuirk()
    ensures Indentation("\n /xy", 4, 4) == " /x"
  {
    SlashParts();
  }

  lemma SlashParts()
    ensures Copied("\n /xy", 4, 4) == " /x" && ExtraTab("\n /xy", 4) == ""
  {
    var d := "\n /xy";
    LastNewlineIs(d, 4, 0);
    SkipBlanksIs(d, 1, 4, 2);
    assert d[1..4] == " /x";
    CountAbsent(" /x", '(');
    CountAbsent(" /x", ')');
  }

  // ---------------------------------------------------------------------
  // The input filter
  // ---------------------------------------------------------------------

  /**
   * The filter's guard: the editor is in modified mode, exactly one
   * character is inserted, it is '\n', and the cursor is not at the end of
   * the buffer.
   */
  predicate IndentsOn(modified: bool, source: string, start: int, end: int, dest: string, dstart: int) {
    && modified && end - start == 1 && 0 <= start < |source| && 0 <= dstart < |dest|
    && source[start] == '\n'
  }

  /** What the filter returns: `source` with the indentation, or `source` unchanged. */
  function FilterResult(modified: bool, source: string, start: int, end: int,
                        dest: string, dstart: int, dend: int): string
    requires 0 <= start <= end <= |source| && 0 <= dstart <= dend <= |dest|
  {
    if IndentsOn(modified, source, start, end, dest, dstart)
    then source + Indentation(dest, dstart, dend)
    else source
  }

  /**
   * The filter only ever appends to what is typed, and it appends something
   * only under its guard: never for a '\n' typed at the very end of the
   * buffer, for a paste of several characters, or outside modified mode.
   */
  lemma FilterOnlyAppends(modified: bool, source: string, start: int, end: int,
                          dest: string, dstart: int, dend: int)
    requires 0 <= start <= end <= |source| && 0 <= dstart <= dend <= |dest|
    ensures var r := FilterResult(modified, source, start, end, dest, dstart, dend);
            && source <= r
            && (r != source ==> modified && end - start == 1 && source[start] == '\n' && dstart < |dest|)
            && (dstart == |dest| ==> r == source)
            && (!modified ==> r == source)
  {
  }
}
