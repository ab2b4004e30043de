// Character-level helpers of CodeEditor: Java's String.indexOf, the
// `removeNonAscii` filter and the per-line trailing-blank stripping behind
// `getCleanText`.  Strings are sequences of Unicode code points.

module TextUtil {

  /** A space or a tab: the two characters the editor treats as indentation. */
  predicate IsBlank(c: char) {
    c == ' ' || c == '\t'
  }

  /** Number of occurrences of `c` in `s`. */
  function Count(s: string, c: char): nat {
    multiset(s)[c]
  }

  /** A character that occurs nowhere in `s` is counted 0 times. */
  lemma CountAbsent(s: string, c: char)
    requires forall j :: 0 <= j < |s| ==> s[j] != c
    ensures Count(s, c) == 0
  {
    assert c !in s;
  }

  /**
   * Java's `s.indexOf(c, from)`: the first index at or after `from` (a
   * negative `from` counts as 0) that holds `c`, or -1 when there is none.
   */
  function IndexOf(s: string, c: char, from: int): (k: int)
    ensures -1 <= k < |s|
    ensures k >= 0 ==> from <= k && s[k] == c
    ensures k >= 0 ==> forall j :: 0 <= j < k && from <= j ==> s[j] != c
    ensures k < 0 ==> forall j :: 0 <= j < |s| && from <= j ==> s[j] != c
    decreases |s| - from
  {
    if from < 0 then IndexOf(s, c, 0)
    else if from >= |s| then -1
    else if s[from] == c then from
    else IndexOf(s, c, from + 1)
  }

  // ---------------------------------------------------------------------
  // removeNonAscii: replaceAll("[^\\x0A\\x09\\x20-\\x7E]", "")
  // ---------------------------------------------------------------------

  /** The characters the class `[\x0A\x09\x20-\x7E]` accepts. */
  predicate IsKept(c: char) {
    c == '\t' || c == '\n' || (' ' <= c <= '~')
  }

  /** Deletes every character outside tab, newline and printable ASCII. */
  function RemoveNonAscii(s: string): (r: string)
    ensures |r| <= |s|
    ensures forall i :: 0 <= i < |r| ==> IsKept(r[i])
  {
    if s == [] then []
    else
      var rest := RemoveNonAscii(s[1..]);
      var r := (if IsKept(s[0]) then [s[0]] else []) + rest;
      assert forall i :: 0 <= i < |r| ==> IsKept(r[i]) by {
        forall i | 0 <= i < |r| ensures IsKept(r[i]) {
          if IsKept(s[0]) && i > 0 { assert r[i] == rest[i - 1]; }
        }
      }
      r
  }

  /** The filter works character by character: it distributes over concatenation. */
  lemma {:induction false} RemoveNonAsciiAppend(a: string, b: string)
    ensures RemoveNonAscii(a + b) == RemoveNonAscii(a) + RemoveNonAscii(b)
    decreases |a|
  {
    if a != [] {
      assert (a + b)[0] == a[0] && (a + b)[1..] == a[1..] + b;
      RemoveNonAsciiAppend(a[1..], b);
      var h := if IsKept(a[0]) then [a[0]] else [];
      assert RemoveNonAscii(a + b) == h + RemoveNonAscii(a[1..] + b);
      assert RemoveNonAscii(a) == h + RemoveNonAscii(a[1..]);
    } else {
      assert a + b == b;
    }
  }

  /** A kept character is copied once for every occurrence; a dropped one vanishes. */
  lemma {:induction false} RemoveNonAsciiCounts(s: string, c: char)
    ensures Count(RemoveNonAscii(s), c) == if IsKept(c) then Count(s, c) else 0
    decreases |s|
  {
    if s != [] {
      RemoveNonAsciiCounts(s[1..], c);
      assert s == [s[0]] + s[1..];
    }
  }

  /** Text made only of kept characters passes unchanged. */
  lemma {:induction false} RemoveNonAsciiIdentity(s: string)
    requires forall i :: 0 <= i < |s| ==> IsKept(s[i])
    ensures RemoveNonAscii(s) == s
    decreases |s|
  {
    if s != [] {
      RemoveNonAsciiIdentity(s[1..]);
    }
  }

  /** Filtering twice is filtering once. */
  lemma RemoveNonAsciiIdempotent(s: string)
    ensures RemoveNonAscii(RemoveNonAscii(s)) == RemoveNonAscii(s)
  {
    RemoveNonAsciiIdentity(RemoveNonAscii(s));
  }

  // ---------------------------------------------------------------------
  // getCleanText: replaceAll of "[\\t ]+$" in MULTILINE mode
  // ---------------------------------------------------------------------

  /** `s` without its trailing run of spaces and tabs. */
  function TrimRight(s: string): (r: string)
    ensures |r| <= |s|
  {
    if s == [] then []
    else if IsBlank(s[|s| - 1]) then TrimRight(s[..|s| - 1])
    else s
  }

  /**
   * TrimRight keeps a prefix of `s`, removes only blanks, and leaves no
   * blank at the end.
   */
  lemma {:induction false} TrimRightSpec(s: string)
    ensures var r := TrimRight(s);
            && r == s[..|r|]
            && (r == [] || !IsBlank(r[|r| - 1]))
            && forall i :: |r| <= i < |s| ==> IsBlank(s[i])
    decreases |s|
  {
    if s != [] && IsBlank(s[|s| - 1]) {
      var init := s[..|s| - 1];
      TrimRightSpec(init);
      var r := TrimRight(init);
      assert s[..|r|] == init[..|r|];
    }
  }

  /** The lines of `s`: the pieces between its '\n' characters. */
  function Lines(s: string): seq<string>
    decreases |s|
  {
    var k := IndexOf(s, '\n', 0);
    if k < 0 then [s] else [s[..k]] + Lines(s[k + 1..])
  }

  /** There is one line more than there are '\n', and no line holds a '\n'. */
  lemma {:induction false} LinesSpec(s: string)
    ensures |Lines(s)| == Count(s, '\n') + 1
    ensures forall i :: 0 <= i < |Lines(s)| ==> '\n' !in Lines(s)[i]
    decreases |s|
  {
    var k := IndexOf(s, '\n', 0);
    var ls := Lines(s);
    if k < 0 {
      assert '\n' !in s;
      assert ls == [s];
    } else {
      var rest := s[k + 1..];
      LinesSpec(rest);
      assert s == s[..k] + [s[k]] + rest;
      assert '\n' !in s[..k];
      assert multiset(s) == multiset(s[..k]) + multiset([s[k]]) + multiset(rest);
      assert ls == [s[..k]] + Lines(rest);
      forall i | 0 <= i < |ls| ensures '\n' !in ls[i] {
        if i > 0 {
          assert ls[i] == Lines(rest)[i - 1];
        }
      }
    }
  }

  /** The inverse of Lines: the pieces glued back with '\n'. */
  function Join(ls: seq<string>): string
    decreases |ls|
  {
    if |ls| == 0 then ""
    else if |ls| == 1 then ls[0]
    else ls[0] + "\n" + Join(ls[1..])
  }

  /** Splitting into lines and joining them back gives the text. */
  lemma {:induction false} JoinLines(s: string)
    ensures Join(Lines(s)) == s
    decreases |s|
  {
    var k := IndexOf(s, '\n', 0);
    var ls := Lines(s);
    if k >= 0 {
      JoinLines(s[k + 1..]);
      var rest := Lines(s[k + 1..]);
      assert ls == [s[..k]] + rest;
      assert ls[0] == s[..k] && ls[1..] == rest && |ls| >= 2;
      assert Join(ls) == s[..k] + "\n" + Join(rest);
      assert s == s[..k] + "\n" + s[k + 1..];
    } else {
      assert ls == [s];
    }
  }

  /** Joining newline-free lines and splitting the result gives the lines back. */
  lemma {:induction false} LinesJoin(ls: seq<string>)
    requires |ls| >= 1
    requires forall i :: 0 <= i < |ls| ==> '\n' !in ls[i]
    ensures Lines(Join(ls)) == ls
    decreases |ls|
  {
    if |ls| == 1 {
      assert IndexOf(ls[0], '\n', 0) < 0;
    } else {
      assert Join(ls) == ls[0] + "\n" + Join(ls[1..]);
      LinesCons(ls[0], Join(ls[1..]));
      LinesJoin(ls[1..]);
      assert [ls[0]] + ls[1..] == ls;
    }
  }

  /** A newline-free line, a '\n', then more text: the line comes first. */
  lemma LinesCons(a: string, b: string)
    requires '\n' !in a
    ensures Lines(a + "\n" + b) == [a] + Lines(b)
  {
    var s := a + "\n" + b;
    assert s[|a|] == '\n';
    assert forall j :: 0 <= j < |a| ==> s[j] == a[j];
    assert IndexOf(s, '\n', 0) == |a|;
    assert s[..|a|] == a && s[|a| + 1..] == b;
  }

  /** Applies TrimRight to each line. */
  function TrimLines(ls: seq<string>): (r: seq<string>)
    ensures |r| == |ls|
  {
    seq(|ls|, i requires 0 <= i < |ls| => TrimRight(ls[i]))
  }

  /**
   * The text `getCleanText` returns: each line, up to its '\n' or the end
   * of the text, loses its trailing spaces and tabs.
   */
  function CleanText(s: string): string
    decreases |s|
  {
    var k := IndexOf(s, '\n', 0);
    if k < 0 then TrimRight(s)
    else TrimRight(s[..k]) + "\n" + CleanText(s[k + 1..])
  }

  /** CleanText is Join of the trimmed lines of the input. */
  lemma {:induction false} CleanTextIsJoin(s: string)
    ensures CleanText(s) == Join(TrimLines(Lines(s)))
    decreases |s|
  {
    var k := IndexOf(s, '\n', 0);
    if k >= 0 {
      var rest := Lines(s[k + 1..]);
      CleanTextIsJoin(s[k + 1..]);
      assert Lines(s) == [s[..k]] + rest;
      TrimLinesCons(s[..k], rest);
      JoinCons(TrimRight(s[..k]), TrimLines(rest));
    } else {
      assert Lines(s) == [s];
      assert TrimLines([s]) == [TrimRight(s)];
    }
  }

  /** Trimming a list of lines with one more in front. */
  lemma TrimLinesCons(a: string, rest: seq<string>)
    ensures TrimLines([a] + rest) == [TrimRight(a)] + TrimLines(rest)
  {
    var ls := [a] + rest;
    assert forall i :: 0 < i < |ls| ==> ls[i] == rest[i - 1];
  }

  /** Joining a list of lines with one more in front. */
  lemma JoinCons(a: string, rest: seq<string>)
    requires |rest| >= 1
    ensures Join([a] + rest) == a + "\n" + Join(rest)
  {
    assert ([a] + rest)[1..] == rest;
  }

  /**
   * Line by line, the cleaned text has the same lines as the input, each
   * trimmed: so every '\n' is kept, and each output line is a prefix of its
   * input line with only blanks removed and no blank left at its end.
   */
  lemma CleanTextLines(s: string)
    ensures Lines(CleanText(s)) == TrimLines(Lines(s))
    ensures Count(CleanText(s), '\n') == Count(s, '\n')
  {
    CleanTextIsJoin(s);
    LinesSpec(s);
    var ts := TrimLines(Lines(s));
    forall i | 0 <= i < |ts| ensures '\n' !in ts[i] {
      var l := Lines(s)[i];
      TrimRightSpec(l);
      assert ts[i] == l[..|ts[i]|];
      assert forall j :: 0 <= j < |ts[i]| ==> ts[i][j] == l[j];
    }
    LinesJoin(ts);
    LinesSpec(CleanText(s));
  }

  /** Cleaning an already clean text changes nothing. */
  lemma CleanTextIdempotent(s: string)
    ensures CleanText(CleanText(s)) == CleanText(s)
  {
    CleanTextLines(s);
    var c := CleanText(s);
    CleanTextIsJoin(c);
    var ts := TrimLines(Lines(s));
    assert TrimLines(Lines(c)) == ts by {
      forall i | 0 <= i < |ts| ensures TrimRight(ts[i]) == ts[i] {
        TrimRightOfTrimmed(Lines(s)[i]);
      }
    }
    CleanTextIsJoin(s);
  }

  /** TrimRight removes nothing from a string that is already trimmed. */
  lemma TrimRightOfTrimmed(s: string)
    ensures TrimRight(TrimRight(s)) == TrimRight(s)
  {
    var t := TrimRight(s);
    TrimRightSpec(s);
    if t != [] {
      assert !IsBlank(t[|t| - 1]);
    }
  }
}
