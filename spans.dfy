// The spans CodeEditor puts on its Editable and the specification of what
// one highlight pass emits: the error-line background, then one foreground
// span per match of each rule, rules in table order, matches left to right.

module Spans {
  import opened TextUtil
  import opened Themes
  import opened Languages

  datatype SpanKind = ForegroundColor | BackgroundColor | TabWidth

  /** A span on the Editable: its class, its range [start, end) and its colour or width. */
  datatype Span = Span(kind: SpanKind, start: nat, end: nat, payload: int)

  // ---------------------------------------------------------------------
  // clearSpans
  // ---------------------------------------------------------------------

  /** The spans left after removing every span of class `kind`, in their order. */
  function Without(spans: seq<Span>, kind: SpanKind): seq<Span> {
    if spans == [] then []
    else (if spans[0].kind == kind then [] else [spans[0]]) + Without(spans[1..], kind)
  }

  /** The spans of class `kind`, in their order. */
  function OfKind(spans: seq<Span>, kind: SpanKind): (r: seq<Span>)
    ensures forall i :: 0 <= i < |r| ==> r[i].kind == kind && r[i] in spans
    ensures forall sp :: sp in spans && sp.kind == kind ==> sp in r
  {
    if spans == [] then []
    else
      var rest := OfKind(spans[1..], kind);
      var r := (if spans[0].kind == kind then [spans[0]] else []) + rest;
      assert forall i :: 0 <= i < |r| ==> r[i].kind == kind && r[i] in spans by {
        forall i | 0 <= i < |r| ensures r[i].kind == kind && r[i] in spans {
          if spans[0].kind == kind && i > 0 {
            assert r[i] == rest[i - 1];
          }
        }
      }
      r
  }

  lemma {:induction false} OfKindAppend(a: seq<Span>, b: seq<Span>, kind: SpanKind)
    ensures OfKind(a + b, kind) == OfKind(a, kind) + OfKind(b, kind)
    decreases |a|
  {
    if a == [] {
      assert a + b == b;
    } else {
      assert (a + b)[0] == a[0] && (a + b)[1..] == a[1..] + b;
      OfKindAppend(a[1..], b, kind);
    }
  }

  /** A list made only of spans of class `kind` is its own OfKind. */
  lemma {:induction false} OfKindAll(spans: seq<Span>, kind: SpanKind)
    requires forall i :: 0 <= i < |spans| ==> spans[i].kind == kind
    ensures OfKind(spans, kind) == spans
    decreases |spans|
  {
    if spans != [] {
      OfKindAll(spans[1..], kind);
      assert spans == [spans[0]] + spans[1..];
    }
  }

  lemma {:induction false} WithoutAppend(a: seq<Span>, b: seq<Span>, kind: SpanKind)
    ensures Without(a + b, kind) == Without(a, kind) + Without(b, kind)
    decreases |a|
  {
    if a == [] {
      assert a + b == b;
    } else {
      assert (a + b)[0] == a[0] && (a + b)[1..] == a[1..] + b;
      WithoutAppend(a[1..], b, kind);
    }
  }

  /** Without keeps exactly what OfKind drops: a list of one class loses every span. */
  lemma {:induction false} WithoutOfKind(spans: seq<Span>, kind: SpanKind)
    requires forall i :: 0 <= i < |spans| ==> spans[i].kind == kind
    ensures Without(spans, kind) == []
    decreases |spans|
  {
    if spans != [] {
      WithoutOfKind(spans[1..], kind);
    }
  }

  /** A list without spans of class `kind` loses nothing. */
  lemma {:induction false} WithoutNone(spans: seq<Span>, kind: SpanKind)
    requires forall i :: 0 <= i < |spans| ==> spans[i].kind != kind
    ensures Without(spans, kind) == spans
    decreases |spans|
  {
    if spans != [] {
      WithoutNone(spans[1..], kind);
      assert spans == [spans[0]] + spans[1..];
    }
  }

  /**
   * Removing the foreground spans and then the background spans, as
   * clearSpans does, leaves exactly the tab-width spans, in their order.
   */
  lemma {:induction false} ClearLeavesTabSpans(spans: seq<Span>)
    ensures Without(Without(spans, ForegroundColor), BackgroundColor) == OfKind(spans, TabWidth)
    decreases |spans|
  {
    if spans != [] {
      ClearLeavesTabSpans(spans[1..]);
      var w := Without(spans, ForegroundColor);
      if spans[0].kind == ForegroundColor {
        assert w == Without(spans[1..], ForegroundColor);
      } else {
        assert w == [spans[0]] + Without(spans[1..], ForegroundColor);
        assert w[0] == spans[0] && w[1..] == Without(spans[1..], ForegroundColor);
      }
    }
  }

  // ---------------------------------------------------------------------
  // The line pattern ".*\n"
  // ---------------------------------------------------------------------

  /** `m` is a line with its '\n': it ends with a '\n' and holds no other. */
  predicate IsLine(text: string, m: Match) {
    && m.start < m.end <= |text|
    && text[m.end - 1] == '\n'
    && (forall q :: m.start <= q < m.end - 1 ==> text[q] != '\n')
  }

  /**
   * The find() loop of ".*\n" from position `from`: each match runs from
   * where the previous one ended up to and including the next '\n'.
   */
  function LinesFrom(text: string, from: nat): seq<Match>
    requires from <= |text|
    decreases |text| - from
  {
    var k := IndexOf(text, '\n', from);
    if k < 0 then [] else [Match(from, k + 1)] + LinesFrom(text, k + 1)
  }

  /**
   * Each line match from `from` is a line with its '\n' that starts at or
   * after `from`, either at `from` itself or just after a '\n'.
   */
  lemma {:induction false} LinesFromShape(text: string, from: nat, j: nat)
    requires from <= |text| && j < |LinesFrom(text, from)|
    ensures from <= LinesFrom(text, from)[j].start && IsLine(text, LinesFrom(text, from)[j])
    ensures var s := LinesFrom(text, from)[j].start;
            s == from || (0 < s <= |text| && text[s - 1] == '\n')
    decreases j
  {
    var k := IndexOf(text, '\n', from);
    LinesFromUnfold(text, from);
    var ms := LinesFrom(text, from);
    if j == 0 {
      assert ms[0] == Match(from, k + 1);
    } else {
      var rest := LinesFrom(text, k + 1);
      assert |ms| == |rest| + 1 && ms[j] == rest[j - 1];
      LinesFromShape(text, k + 1, j - 1);
    }
  }

  /** All matches of ".*\n" in the text. */
  function LineMatches(text: string): seq<Match> {
    LinesFrom(text, 0)
  }

  /** How the '\n' after `from` split around the first of them. */
  lemma NewlineCountSplit(text: string, from: nat)
    requires from <= |text|
    ensures var k := IndexOf(text, '\n', from);
            && (k < 0 ==> Count(text[from..], '\n') == 0)
            && (k >= 0 ==> Count(text[from..], '\n') == 1 + Count(text[k + 1..], '\n'))
  {
    var k := IndexOf(text, '\n', from);
    var t := text[from..];
    if k < 0 {
      assert forall j :: 0 <= j < |t| ==> t[j] == text[from + j];
      CountAbsent(t, '\n');
    } else {
      var a := text[from..k];
      assert forall j :: 0 <= j < |a| ==> a[j] == text[from + j];
      CountAbsent(a, '\n');
      assert t == a + [text[k]] + text[k + 1..];
      assert multiset(t) == multiset(a) + multiset([text[k]]) + multiset(text[k + 1..]);
    }
  }

  /** There are as many line matches after `from` as there are '\n' after it. */
  lemma {:induction false} LinesFromCount(text: string, from: nat)
    requires from <= |text|
    ensures |LinesFrom(text, from)| == Count(text[from..], '\n')
    decreases |text| - from
  {
    var k := IndexOf(text, '\n', from);
    NewlineCountSplit(text, from);
    LinesFromUnfold(text, from);
    if k >= 0 {
      LinesFromCount(text, k + 1);
      assert |LinesFrom(text, from)| == 1 + |LinesFrom(text, k + 1)|;
    } else {
      assert LinesFrom(text, from) == [];
    }
  }

  /** The first line match from `from` runs up to the first '\n', if there is one. */
  lemma LinesFromUnfold(text: string, from: nat)
    requires from <= |text|
    ensures var k := IndexOf(text, '\n', from);
            && (k < 0 ==> LinesFrom(text, from) == [])
            && (k >= 0 ==> LinesFrom(text, from) == [Match(from, k + 1)] + LinesFrom(text, k + 1))
  {
  }

  /** Exactly j '\n' lie between `from` and the start of the j-th line match from `from`. */
  lemma {:induction false} LinesFromBefore(text: string, from: nat, j: nat)
    requires from <= |text|
    requires j < |LinesFrom(text, from)|
    ensures from <= LinesFrom(text, from)[j].start <= |text|
    ensures Count(text[from..LinesFrom(text, from)[j].start], '\n') == j
    decreases j
  {
    var k := IndexOf(text, '\n', from);
    LinesFromUnfold(text, from);
    var ms := LinesFrom(text, from);
    if j == 0 {
      assert ms[0].start == from;
      assert text[from..from] == [];
    } else {
      var rest := LinesFrom(text, k + 1);
      assert |ms| == |rest| + 1 && ms[j] == rest[j - 1];
      var e := rest[j - 1].start;
      LinesFromBefore(text, k + 1, j - 1);
      assert k < e <= |text| && Count(text[k + 1..e], '\n') == j - 1;
      LinePrefixCount(text, from, k, e);
    }
  }

  /** The '\n' between `from` and `e`, when the first of them is at k. */
  lemma LinePrefixCount(text: string, from: nat, k: nat, e: nat)
    requires from <= k < e <= |text|
    requires k == IndexOf(text, '\n', from)
    ensures Count(text[from..e], '\n') == 1 + Count(text[k + 1..e], '\n')
  {
    var a := text[from..k];
    assert forall j :: 0 <= j < |a| ==> a[j] == text[from + j];
    CountAbsent(a, '\n');
    assert text[from..e] == a + [text[k]] + text[k + 1..e];
    assert multiset(text[from..e]) == multiset(a) + multiset([text[k]]) + multiset(text[k + 1..e]);
  }

  /**
   * The k-th (1-based) match of ".*\n" exists exactly when the text has at
   * least k '\n'; it is the k-th line with its '\n', so a last line that
   * lacks a '\n' is never one of them.
   */
  lemma LineMatchesAreNewlineTerminatedLines(text: string, k: nat)
    ensures |LineMatches(text)| == Count(text, '\n')
    ensures 0 < k <= |LineMatches(text)| ==>
              && IsLine(text, LineMatches(text)[k - 1])
              && (LineMatches(text)[k - 1].start == 0 || text[LineMatches(text)[k - 1].start - 1] == '\n')
              && Count(text[..LineMatches(text)[k - 1].start], '\n') == k - 1
  {
    assert |LineMatches(text)| == Count(text, '\n') by {
      LinesFromCount(text, 0);
      assert text[0..] == text;
    }
    if 0 < k <= |LineMatches(text)| {
      LinesFromBefore(text, 0, k - 1);
      LinesFromShape(text, 0, k - 1);
      var m := LineMatches(text)[k - 1];
      assert text[0..m.start] == text[..m.start];
    }
  }

  // ---------------------------------------------------------------------
  // convertTabs
  // ---------------------------------------------------------------------

  /** One tab-width span on every '\t' at a position in [i, stop). */
  function TabSpansFrom(text: string, i: nat, stop: int, width: int): seq<Span>
    requires i <= |text|
    decreases |text| - i
  {
    if i == |text| || stop <= i then []
    else (if text[i] == '\t' then [Span(TabWidth, i, i + 1, width)] else [])
         + TabSpansFrom(text, i + 1, stop, width)
  }

  /** The spans convertTabs(start, count) adds when the tab width is `width`. */
  function TabSpans(text: string, start: int, count: int, width: int): seq<Span> {
    if width < 1 then []
    else if start > |text| then []
    else TabSpansFrom(text, if start < 0 then 0 else start, start + count, width)
  }

  /**
   * The tab spans still to be set when the search resumes at `i`, which
   * may lie before the text (searched from 0) or past its end (nothing found).
   */
  function Pending(text: string, i: int, stop: int, width: int): seq<Span> {
    if i > |text| then [] else TabSpansFrom(text, if i < 0 then 0 else i, stop, width)
  }

  /** With a tab width of at least 1, convertTabs sets what is pending from `start`. */
  lemma TabSpansArePending(text: string, start: int, count: int, width: int)
    requires width >= 1
    ensures TabSpans(text, start, count, width) == Pending(text, start, start + count, width)
  {
  }

  /**
   * One turn of the convertTabs loop: the next '\t' from `i` gets the first
   * pending span when it lies before `stop`; otherwise nothing is pending.
   */
  lemma PendingStep(text: string, i: int, stop: int, width: int)
    ensures var k := IndexOf(text, '\t', i);
            && (k < 0 || k >= stop ==> Pending(text, i, stop, width) == [])
            && (0 <= k < stop ==>
                  Pending(text, i, stop, width) == [Span(TabWidth, k, k + 1, width)] + Pending(text, k + 1, stop, width))
  {
    var k := IndexOf(text, '\t', i);
    if i <= |text| {
      var from: nat := if i < 0 then 0 else i;
      var upto := if k < 0 then |text| else k;
      TabSpansSkip(text, from, upto, stop, width);
    }
  }

  /** Skipping a stretch without tabs skips no span. */
  lemma {:induction false} TabSpansSkip(text: string, i: nat, k: nat, stop: int, width: int)
    requires i <= k <= |text|
    requires forall j :: i <= j < k ==> text[j] != '\t'
    ensures TabSpansFrom(text, i, stop, width) == TabSpansFrom(text, k, stop, width)
    decreases k - i
  {
    if i < k {
      TabSpansSkip(text, i + 1, k, stop, width);
      if stop <= i {
        assert TabSpansFrom(text, k, stop, width) == [];
      }
    }
  }

  /**
   * `r` is a list of one-character spans of kind TabWidth and payload
   * `width`, each on a '\t' of `text` at a position in [lo, hi), in strictly
   * increasing order.
   */
  predicate TabSpansShaped(r: seq<Span>, text: string, lo: int, hi: int, width: int) {
    && (forall j :: 0 <= j < |r| ==>
          && r[j].kind == TabWidth && r[j].end == r[j].start + 1 && r[j].payload == width
          && lo <= r[j].start < hi && r[j].start < |text| && text[r[j].start] == '\t')
    && (forall j1, j2 :: 0 <= j1 < j2 < |r| ==> r[j1].start < r[j2].start)
  }

  /** The tab spans from `i` are shaped so over [i, stop). */
  lemma {:induction false} TabSpansFromShape(text: string, i: nat, stop: int, width: int)
    requires i <= |text|
    ensures TabSpansShaped(TabSpansFrom(text, i, stop, width), text, i, stop, width)
    decreases |text| - i
  {
    if i < |text| && i < stop {
      TabSpansFromShape(text, i + 1, stop, width);
      var rest := TabSpansFrom(text, i + 1, stop, width);
      if text[i] == '\t' {
        TabSpansShapedCons(Span(TabWidth, i, i + 1, width), rest, text, i, stop, width);
      }
    }
  }

  /** A tab span at `lo` followed by spans shaped over (lo, hi) is shaped over [lo, hi). */
  lemma TabSpansShapedCons(h: Span, rest: seq<Span>, text: string, lo: nat, hi: int, width: int)
    requires lo < |text| && lo < hi && text[lo] == '\t' && h == Span(TabWidth, lo, lo + 1, width)
    requires TabSpansShaped(rest, text, lo + 1, hi, width)
    ensures TabSpansShaped([h] + rest, text, lo, hi, width)
  {
    var r := [h] + rest;
    forall j | 0 < j < |r| ensures r[j] == rest[j - 1] {
    }
  }

  /** Every '\t' in [i, stop) gets a span. */
  lemma {:induction false} TabSpansFromCover(text: string, i: nat, stop: int, width: int, p: nat)
    requires i <= p < |text| && p < stop && text[p] == '\t'
    ensures Span(TabWidth, p, p + 1, width) in TabSpansFrom(text, i, stop, width)
    decreases p - i
  {
    if i < p {
      TabSpansFromCover(text, i + 1, stop, width, p);
    }
  }

  /**
   * convertTabs marks every '\t' in [start, start + count) with exactly one
   * one-character span of the tab width, and nothing else; with a width
   * below 1 it marks nothing.
   */
  lemma {:induction false} TabSpansExact(text: string, start: int, count: int, width: int)
    ensures width < 1 ==> TabSpans(text, start, count, width) == []
    ensures TabSpansShaped(TabSpans(text, start, count, width), text, start, start + count, width)
  {
    var r := TabSpans(text, start, count, width);
    if width >= 1 && start <= |text| {
      var from: nat := if start < 0 then 0 else start;
      assert r == TabSpansFrom(text, from, start + count, width);
      TabSpansFromShape(text, from, start + count, width);
      TabSpansShapedWiden(r, text, from, start, start + count, width);
    } else {
      assert r == [];
    }
  }

  /** Spans shaped over [lo, hi) are shaped over any wider range [lo2, hi). */
  lemma TabSpansShapedWiden(r: seq<Span>, text: string, lo: int, lo2: int, hi: int, width: int)
    requires lo2 <= lo && TabSpansShaped(r, text, lo, hi, width)
    ensures TabSpansShaped(r, text, lo2, hi, width)
  {
  }

  /** ... and every '\t' in that range, with a width of at least 1, does get its span. */
  lemma {:induction false} TabSpansCover(text: string, start: int, count: int, width: int, p: nat)
    requires width >= 1
    requires start <= p < start + count && p < |text| && text[p] == '\t'
    ensures Span(TabWidth, p, p + 1, width) in TabSpans(text, start, count, width)
  {
    var from: nat := if start < 0 then 0 else start;
    TabSpansFromCover(text, from, start + count, width, p);
  }

  // ---------------------------------------------------------------------
  // The rule loop of highlight
  // ---------------------------------------------------------------------

  /** Foreground spans of one colour over the given matches, in their order. */
  function ColorSpans(ms: seq<Match>, color: int): (r: seq<Span>)
    ensures |r| == |ms|
    ensures forall i :: 0 <= i < |ms| ==> r[i] == Span(ForegroundColor, ms[i].start, ms[i].end, color)
  {
    seq(|ms|, i requires 0 <= i < |ms| => Span(ForegroundColor, ms[i].start, ms[i].end, color))
  }

  /** The spans one rule emits: one per match, in the theme's colour for the rule's role. */
  function RuleBlock(rule: Rule, text: string, theme: Theme, oracle: RegexOracle): seq<Span> {
    ColorSpans(Matches(rule.pattern, text, oracle), GetColor(theme, rule.role))
  }

  /** The block of each rule, in table order. */
  function Blocks(rules: seq<Rule>, text: string, theme: Theme, oracle: RegexOracle): (bs: seq<seq<Span>>)
    ensures |bs| == |rules|
    ensures forall i :: 0 <= i < |rules| ==> bs[i] == RuleBlock(rules[i], text, theme, oracle)
  {
    seq(|rules|, i requires 0 <= i < |rules| => RuleBlock(rules[i], text, theme, oracle))
  }

  /** The blocks one after the other. */
  function Flatten(bs: seq<seq<Span>>): seq<Span>
    decreases |bs|
  {
    if bs == [] then [] else Flatten(bs[..|bs| - 1]) + bs[|bs| - 1]
  }

  /** The spans of all rules, rule after rule, each rule's matches left to right. */
  function RuleSpans(rules: seq<Rule>, text: string, theme: Theme, oracle: RegexOracle): seq<Span> {
    Flatten(Blocks(rules, text, theme, oracle))
  }

  /** Where the spans of rule i start in the emitted sequence. */
  function Offset(rules: seq<Rule>, i: nat, text: string, theme: Theme, oracle: RegexOracle): nat
    requires i <= |rules|
  {
    |Flatten(Blocks(rules, text, theme, oracle)[..i])|
  }

  /** The flattened first n blocks are a prefix of all of them flattened. */
  lemma {:induction false} FlattenPrefix(bs: seq<seq<Span>>, n: nat)
    requires n <= |bs|
    ensures Flatten(bs[..n]) <= Flatten(bs)
    decreases |bs|
  {
    if n < |bs| {
      var init := bs[..|bs| - 1];
      assert init[..n] == bs[..n];
      FlattenPrefix(init, n);
    } else {
      assert bs[..n] == bs;
    }
  }

  /** Flattening the first i + 1 blocks appends block i to the first i. */
  lemma FlattenStep(bs: seq<seq<Span>>, i: nat)
    requires i < |bs|
    ensures Flatten(bs[..i + 1]) == Flatten(bs[..i]) + bs[i]
  {
    var pre := bs[..i + 1];
    assert pre[..|pre| - 1] == bs[..i] && pre[|pre| - 1] == bs[i];
  }

  /** Element a of block i sits at |Flatten(bs[..i])| + a, before block i + 1 starts. */
  lemma FlattenAt(bs: seq<seq<Span>>, i: nat, a: nat)
    requires i < |bs| && a < |bs[i]|
    ensures |Flatten(bs[..i])| + a < |Flatten(bs[..i + 1])| <= |Flatten(bs)|
    ensures Flatten(bs)[|Flatten(bs[..i])| + a] == bs[i][a]
  {
    FlattenStep(bs, i);
    FlattenPrefix(bs, i + 1);
    ConcatAt(Flatten(bs[..i]), bs[i], |Flatten(bs[..i])| + a);
  }

  /** Every element of the flattened blocks is element a of some block i. */
  lemma {:induction false} FlattenOrigin(bs: seq<seq<Span>>, n: nat, p: nat) returns (i: nat, a: nat)
    requires n <= |bs| && p < |Flatten(bs[..n])|
    ensures i < n && a < |bs[i]|
    ensures p == |Flatten(bs[..i])| + a
    ensures Flatten(bs[..n])[p] == bs[i][a]
    decreases n
  {
    FlattenStep(bs, n - 1);
    var before := Flatten(bs[..n - 1]);
    if p < |before| {
      i, a := FlattenOrigin(bs, n - 1, p);
    } else {
      i, a := n - 1, p - |before|;
    }
    ConcatAt(before, bs[n - 1], p);
  }

  /** The first n rules have the first n blocks. */
  lemma BlocksPrefix(rules: seq<Rule>, n: nat, text: string, theme: Theme, oracle: RegexOracle)
    requires n <= |rules|
    ensures Blocks(rules[..n], text, theme, oracle) == Blocks(rules, text, theme, oracle)[..n]
  {
  }

  /** The spans of the first n rules are emitted before all the others. */
  lemma RuleSpansPrefix(rules: seq<Rule>, n: nat, text: string, theme: Theme, oracle: RegexOracle)
    requires n <= |rules|
    ensures RuleSpans(rules[..n], text, theme, oracle) <= RuleSpans(rules, text, theme, oracle)
    ensures |RuleSpans(rules[..n], text, theme, oracle)| == Offset(rules, n, text, theme, oracle)
  {
    BlocksPrefix(rules, n, text, theme, oracle);
    FlattenPrefix(Blocks(rules, text, theme, oracle), n);
  }

  /** The spans of the first i + 1 rules are those of the first i, then rule i's. */
  lemma RuleSpansStep(rules: seq<Rule>, i: nat, text: string, theme: Theme, oracle: RegexOracle)
    requires i < |rules|
    ensures RuleSpans(rules[..i + 1], text, theme, oracle)
            == RuleSpans(rules[..i], text, theme, oracle) + RuleBlock(rules[i], text, theme, oracle)
  {
    var bs := Blocks(rules, text, theme, oracle);
    BlocksPrefix(rules, i, text, theme, oracle);
    BlocksPrefix(rules, i + 1, text, theme, oracle);
    FlattenStep(bs, i);
  }

  /** The a-th match of rule i lies inside rule i's stretch of the emitted spans. */
  lemma RuleSpanPlace(rules: seq<Rule>, i: nat, a: nat, text: string, theme: Theme, oracle: RegexOracle)
    requires i < |rules|
    requires a < |Matches(rules[i].pattern, text, oracle)|
    ensures Offset(rules, i, text, theme, oracle) + a < Offset(rules, i + 1, text, theme, oracle)
    ensures Offset(rules, i + 1, text, theme, oracle) <= |RuleSpans(rules, text, theme, oracle)|
  {
    var bs := Blocks(rules, text, theme, oracle);
    BlockSpanAt(rules, i, a, text, theme, oracle);
    FlattenAt(bs, i, a);
  }

  /**
   * The a-th match of rule i becomes the span at Offset(i) + a: a foreground
   * span over exactly that match, in the theme's colour for the rule's role.
   */
  lemma RuleSpanAt(rules: seq<Rule>, i: nat, a: nat, text: string, theme: Theme, oracle: RegexOracle)
    requires i < |rules|
    requires a < |Matches(rules[i].pattern, text, oracle)|
    ensures Offset(rules, i, text, theme, oracle) + a < |RuleSpans(rules, text, theme, oracle)|
    ensures var m := Matches(rules[i].pattern, text, oracle)[a];
            RuleSpans(rules, text, theme, oracle)[Offset(rules, i, text, theme, oracle) + a]
              == Span(ForegroundColor, m.start, m.end, GetColor(theme, rules[i].role))
  {
    var bs := Blocks(rules, text, theme, oracle);
    BlockSpanAt(rules, i, a, text, theme, oracle);
    FlattenAt(bs, i, a);
    assert RuleSpans(rules, text, theme, oracle) == Flatten(bs);
    assert Offset(rules, i, text, theme, oracle) == |Flatten(bs[..i])|;
  }

  /** Span a of rule i's block is match a of the rule, in the colour of its role. */
  lemma BlockSpanAt(rules: seq<Rule>, i: nat, a: nat, text: string, theme: Theme, oracle: RegexOracle)
    requires i < |rules|
    ensures |Blocks(rules, text, theme, oracle)[i]| == |Matches(rules[i].pattern, text, oracle)|
    ensures a < |Matches(rules[i].pattern, text, oracle)| ==>
            var m := Matches(rules[i].pattern, text, oracle)[a];
            Blocks(rules, text, theme, oracle)[i][a]
              == Span(ForegroundColor, m.start, m.end, GetColor(theme, rules[i].role))
  {
  }

  /** Offsets grow with the rule index. */
  lemma OffsetMonotone(rules: seq<Rule>, i: nat, j: nat, text: string, theme: Theme, oracle: RegexOracle)
    requires i <= j <= |rules|
    ensures Offset(rules, i, text, theme, oracle) <= Offset(rules, j, text, theme, oracle)
  {
    var bs := Blocks(rules, text, theme, oracle);
    assert bs[..j][..i] == bs[..i];
    FlattenPrefix(bs[..j], i);
  }

  /**
   * Every span of an earlier rule is emitted before every span of a later
   * rule, so a later rule's colour is applied over an earlier one's.
   */
  lemma EarlierRuleEmittedFirst(rules: seq<Rule>, i: nat, a: nat, j: nat, b: nat,
                                text: string, theme: Theme, oracle: RegexOracle)
    requires i < j < |rules|
    requires a < |Matches(rules[i].pattern, text, oracle)|
    requires b < |Matches(rules[j].pattern, text, oracle)|
    ensures Offset(rules, i, text, theme, oracle) + a < Offset(rules, j, text, theme, oracle) + b
  {
    RuleSpanPlace(rules, i, a, text, theme, oracle);
    OffsetMonotone(rules, i + 1, j, text, theme, oracle);
  }

  /**
   * Every emitted span comes from some rule i and some match a of it: its
   * range is that match and its colour the theme's colour of the rule's role.
   */
  lemma RuleSpanOrigin(rules: seq<Rule>, p: nat, text: string, theme: Theme,
                       oracle: RegexOracle) returns (i: nat, a: nat)
    requires p < |RuleSpans(rules, text, theme, oracle)|
    ensures i < |rules| && a < |Matches(rules[i].pattern, text, oracle)|
    ensures p == Offset(rules, i, text, theme, oracle) + a
    ensures var m := Matches(rules[i].pattern, text, oracle)[a];
            RuleSpans(rules, text, theme, oracle)[p]
              == Span(ForegroundColor, m.start, m.end, GetColor(theme, rules[i].role))
  {
    var bs := Blocks(rules, text, theme, oracle);
    assert bs[..|bs|] == bs;
    i, a := FlattenOrigin(bs, |bs|, p);
    BlockSpanAt(rules, i, a, text, theme, oracle);
  }

  /** A property every span of every block has, every flattened span has. */
  lemma {:induction false} FlattenAll(bs: seq<seq<Span>>, ok: Span -> bool)
    requires forall i, a :: 0 <= i < |bs| && 0 <= a < |bs[i]| ==> ok(bs[i][a])
    ensures forall p :: 0 <= p < |Flatten(bs)| ==> ok(Flatten(bs)[p])
    decreases |bs|
  {
    if bs != [] {
      var init := bs[..|bs| - 1];
      var last := bs[|bs| - 1];
      FlattenAll(init, ok);
      forall p | 0 <= p < |Flatten(bs)| ensures ok(Flatten(bs)[p]) {
        ConcatAt(Flatten(init), last, p);
      }
    }
  }

  /** The rule spans are all foreground spans. */
  lemma RuleSpansForeground(rules: seq<Rule>, text: string, theme: Theme, oracle: RegexOracle)
    ensures forall p :: 0 <= p < |RuleSpans(rules, text, theme, oracle)| ==>
              RuleSpans(rules, text, theme, oracle)[p].kind == ForegroundColor
  {
    var bs := Blocks(rules, text, theme, oracle);
    var ok := (sp: Span) => sp.kind == ForegroundColor;
    forall i, a | 0 <= i < |bs| && 0 <= a < |bs[i]| ensures ok(bs[i][a]) {
      BlockSpanAt(rules, i, a, text, theme, oracle);
    }
    FlattenAll(bs, ok);
  }

  /** With a well-behaved regex engine the rule spans are non-empty ranges inside the text. */
  lemma RuleSpansInBounds(rules: seq<Rule>, text: string, theme: Theme, oracle: RegexOracle)
    requires OracleWellFormed(oracle, rules, text)
    ensures forall p :: 0 <= p < |RuleSpans(rules, text, theme, oracle)| ==>
              RuleSpans(rules, text, theme, oracle)[p].start < RuleSpans(rules, text, theme, oracle)[p].end <= |text|
  {
    var bs := Blocks(rules, text, theme, oracle);
    var ok := (sp: Span) => sp.start < sp.end <= |text|;
    forall i, a | 0 <= i < |bs| && 0 <= a < |bs[i]| ensures ok(bs[i][a]) {
      BlockSpanAt(rules, i, a, text, theme, oracle);
      var ms := Matches(rules[i].pattern, text, oracle);
      MatchesWellFormed(rules[i].pattern, text, oracle);
      assert ms[a].start < ms[a].end <= |text|;
    }
    FlattenAll(bs, ok);
  }

  // ---------------------------------------------------------------------
  // One highlight pass
  // ---------------------------------------------------------------------

  /**
   * The background span of the error line: the errorLine-th match of
   * ".*\n", in colour `colorError`; none when errorLine <= 0.
   */
  function ErrorLineSpans(text: string, errorLine: int, colorError: int): (r: seq<Span>)
    requires errorLine <= |LineMatches(text)|
    ensures |r| <= 1
    ensures forall i :: 0 <= i < |r| ==> r[i].kind == BackgroundColor && r[i].payload == colorError
  {
    if errorLine > 0 then
      var m := LineMatches(text)[errorLine - 1];
      [Span(BackgroundColor, m.start, m.end, colorError)]
    else []
  }

  /**
   * The spans one highlight pass emits on a text whose old colour spans were
   * cleared.  Nothing for an empty text.  With errorLine > 0 the
   * errorLine-th match of ".*\n" gets a background span first; when there
   * are fewer matches, Matcher.start() throws IllegalStateException, which
   * highlight catches, so the pass emits nothing at all.
   */
  function HighlightSpans(text: string, errorLine: int, colorError: int, theme: Theme,
                          rules: seq<Rule>, oracle: RegexOracle): seq<Span>
  {
    if |text| == 0 || errorLine > |LineMatches(text)| then []
    else ErrorLineSpans(text, errorLine, colorError) + RuleSpans(rules, text, theme, oracle)
  }

  /**
   * Every emitted span is a foreground span except exactly one: the first,
   * when there is an error line, which is the background span.
   */
  lemma HighlightSpanKind(text: string, errorLine: int, colorError: int, theme: Theme,
                          rules: seq<Rule>, oracle: RegexOracle, p: nat)
    requires p < |HighlightSpans(text, errorLine, colorError, theme, rules, oracle)|
    ensures var sp := HighlightSpans(text, errorLine, colorError, theme, rules, oracle)[p];
            && (sp.kind == BackgroundColor <==> p == 0 && errorLine > 0)
            && (sp.kind != BackgroundColor ==> sp.kind == ForegroundColor)
  {
    var e := ErrorLineSpans(text, errorLine, colorError);
    var rs := RuleSpans(rules, text, theme, oracle);
    HighlightSpansUnfold(text, errorLine, colorError, theme, rules, oracle);
    ConcatAt(e, rs, p);
    if p >= |e| {
      RuleSpansForeground(rules, text, theme, oracle);
    }
  }

  /** A non-empty pass is the error-line span, if any, then the rule spans. */
  lemma HighlightSpansUnfold(text: string, errorLine: int, colorError: int, theme: Theme,
                             rules: seq<Rule>, oracle: RegexOracle)
    requires HighlightSpans(text, errorLine, colorError, theme, rules, oracle) != []
    ensures |text| > 0 && errorLine <= |LineMatches(text)|
    ensures HighlightSpans(text, errorLine, colorError, theme, rules, oracle)
            == ErrorLineSpans(text, errorLine, colorError) + RuleSpans(rules, text, theme, oracle)
  {
  }

  lemma ConcatAt(e: seq<Span>, rs: seq<Span>, p: nat)
    requires p < |e| + |rs|
    ensures p < |e| ==> (e + rs)[p] == e[p]
    ensures p >= |e| ==> (e + rs)[p] == rs[p - |e|]
  {
  }

  /**
   * The error line: with 0 < errorLine <= (number of '\n'), the first span
   * is the only background span; it covers the errorLine-th line including
   * its '\n' and nothing else, and the rule spans follow it.  With more
   * lines requested than the text has '\n', nothing is emitted.
   */
  lemma ErrorLineBackground(text: string, errorLine: int, colorError: int, theme: Theme,
                            rules: seq<Rule>, oracle: RegexOracle)
    requires |text| > 0 && errorLine > 0
    ensures errorLine > Count(text, '\n') ==> HighlightSpans(text, errorLine, colorError, theme, rules, oracle) == []
    ensures errorLine <= Count(text, '\n') ==>
              var r := HighlightSpans(text, errorLine, colorError, theme, rules, oracle);
              && |r| >= 1
              && r[0].kind == BackgroundColor && r[0].payload == colorError
              && r[0].start < r[0].end <= |text|
              && (r[0].start == 0 || text[r[0].start - 1] == '\n')
              && text[r[0].end - 1] == '\n'
              && (forall q :: r[0].start <= q < r[0].end - 1 ==> text[q] != '\n')
              && Count(text[..r[0].start], '\n') == errorLine - 1
              && r[1..] == RuleSpans(rules, text, theme, oracle)
  {
    LineMatchesAreNewlineTerminatedLines(text, errorLine);
  }

  /** In "a\nb\nc\nd\ne\n" the third line is "c\n", so error line 3 gets a background over [4, 6). */
  lemma ErrorLineThree(colorError: int, theme: Theme, rules: seq<Rule>, oracle: RegexOracle)
    ensures var text := "a\nb\nc\nd\ne\n";
            && HighlightSpans(text, 3, colorError, theme, rules, oracle) != []
            && HighlightSpans(text, 3, colorError, theme, rules, oracle)[0]
                 == Span(BackgroundColor, 4, 6, colorError)
  {
    var text := "a\nb\nc\nd\ne\n";
    assert IndexOf(text, '\n', 0) == 1 && IndexOf(text, '\n', 2) == 3 && IndexOf(text, '\n', 4) == 5;
    LinesFromUnfold(text, 0);
    LinesFromUnfold(text, 2);
    LinesFromUnfold(text, 4);
    var ms := LineMatches(text);
    assert |ms| >= 3 && ms[2] == Match(4, 6);
    assert ErrorLineSpans(text, 3, colorError) == [Span(BackgroundColor, 4, 6, colorError)];
  }

  /** Without an error line no background span is emitted: every span is a rule's. */
  lemma NoErrorLineNoBackground(text: string, errorLine: int, colorError: int, theme: Theme,
                                rules: seq<Rule>, oracle: RegexOracle, p: nat)
    requires errorLine <= 0
    requires p < |HighlightSpans(text, errorLine, colorError, theme, rules, oracle)|
    ensures HighlightSpans(text, errorLine, colorError, theme, rules, oracle)[p].kind == ForegroundColor
  {
    HighlightSpanKind(text, errorLine, colorError, theme, rules, oracle, p);
  }

  /** No highlight pass emits a tab-width span, so re-highlighting keeps the tab spans as they are. */
  lemma HighlightKeepsTabSpans(spans: seq<Span>, text: string, errorLine: int, colorError: int,
                               theme: Theme, rules: seq<Rule>, oracle: RegexOracle)
    ensures var h := HighlightSpans(text, errorLine, colorError, theme, rules, oracle);
            OfKind(OfKind(spans, TabWidth) + h, TabWidth) == OfKind(spans, TabWidth)
  {
    var h := HighlightSpans(text, errorLine, colorError, theme, rules, oracle);
    NoTabSpans(h, text, errorLine, colorError, theme, rules, oracle);
    OfKindAppend(OfKind(spans, TabWidth), h, TabWidth);
    OfKindIdempotent(spans, TabWidth);
  }

  lemma {:induction false} OfKindIdempotent(spans: seq<Span>, kind: SpanKind)
    ensures OfKind(OfKind(spans, kind), kind) == OfKind(spans, kind)
    decreases |spans|
  {
    if spans != [] {
      OfKindIdempotent(spans[1..], kind);
      var rest := OfKind(spans[1..], kind);
      if spans[0].kind == kind {
        assert OfKind(spans, kind) == [spans[0]] + rest;
        OfKindAppend([spans[0]], rest, kind);
        assert [spans[0]][1..] == [];
        assert OfKind([spans[0]], kind) == [spans[0]] + OfKind([], kind);
      } else {
        assert OfKind(spans, kind) == rest;
      }
    }
  }

  lemma {:induction false} OfKindNone(spans: seq<Span>, kind: SpanKind)
    requires forall i :: 0 <= i < |spans| ==> spans[i].kind != kind
    ensures OfKind(spans, kind) == []
    decreases |spans|
  {
    if spans != [] {
      OfKindNone(spans[1..], kind);
    }
  }

  lemma NoTabSpans(h: seq<Span>, text: string, errorLine: int, colorError: int,
                   theme: Theme, rules: seq<Rule>, oracle: RegexOracle)
    requires h == HighlightSpans(text, errorLine, colorError, theme, rules, oracle)
    ensures OfKind(h, TabWidth) == []
  {
    forall p | 0 <= p < |h| ensures h[p].kind != TabWidth {
      HighlightSpanKind(text, errorLine, colorError, theme, rules, oracle, p);
    }
    OfKindNone(h, TabWidth);
  }

  /**
   * With a well-behaved regex engine every emitted span is a non-empty
   * range inside the text.
   */
  lemma HighlightSpansInBounds(text: string, errorLine: int, colorError: int, theme: Theme,
                               rules: seq<Rule>, oracle: RegexOracle, p: nat)
    requires OracleWellFormed(oracle, rules, text)
    requires p < |HighlightSpans(text, errorLine, colorError, theme, rules, oracle)|
    ensures var sp := HighlightSpans(text, errorLine, colorError, theme, rules, oracle)[p];
            sp.start < sp.end <= |text|
  {
    var e := ErrorLineSpans(text, errorLine, colorError);
    var rs := RuleSpans(rules, text, theme, oracle);
    HighlightSpansUnfold(text, errorLine, colorError, theme, rules, oracle);
    ConcatAt(e, rs, p);
    if p >= |e| {
      RuleSpansInBounds(rules, text, theme, oracle);
    } else {
      LinesFromShape(text, 0, errorLine - 1);
    }
  }
}
