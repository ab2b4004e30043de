// The CodeEditor widget: its text, the spans on its Editable, its flags and
// its tab width, with the methods that change them.  The Android pieces the
// widget leans on are reduced to what they do to this state: Editable.replace
// runs the input filter on the inserted text, splices the result in and then
// calls the TextWatcher; setText does the same for a whole new text; setSpan
// appends a span; removeSpan deletes one.

module Editor {
  import opened TextUtil
  import opened Themes
  import opened Languages
  import opened Spans
  import opened Indent

  datatype Option<T> = None | Some(value: T)

  /** Java's Math.round on a float: the nearest integer, halves rounded up. */
  function Round(x: real): int {
    (x + 0.5).Floor
  }

  class CodeEditor {
    /** The characters of the Editable. */
    var text: string
    /** The spans on the Editable, in the order they were set. */
    var spans: seq<Span>
    var language: LanguageDefinition
    var theme: Theme
    /** The regex engine behind the patterns of the rules. */
    const oracle: RegexOracle
    /** Whether an OnTextChangedListener is installed. */
    var hasListener: bool
    /** The texts handed to the listener so far, oldest first. */
    var notified: seq<string>
    var errorLine: int
    var dirty: bool
    var modified: bool
    /** Never assigned, so it keeps Java's default 0. */
    var colorError: int
    var tabWidthInCharacters: int
    var tabWidth: int

    /** A fresh widget: empty text, the Lua language, the OneDark theme. */
    constructor (oracle: RegexOracle)
      ensures text == [] && spans == [] && this.oracle == oracle
      ensures language == Lua() && theme == OneDark()
      ensures !hasListener && notified == []
      ensures errorLine == 0 && !dirty && modified && colorError == 0
      ensures tabWidthInCharacters == 0 && tabWidth == 0
    {
      text := [];
      spans := [];
      language := Lua();
      theme := OneDark();
      this.oracle := oracle;
      hasListener := false;
      notified := [];
      errorLine := 0;
      dirty := false;
      modified := true;
      colorError := 0;
      tabWidthInCharacters := 0;
      tabWidth := 0;
    }

    /** Installs a listener (`present`) or removes it (null). */
    method SetOnTextChangedListener(present: bool)
      modifies this`hasListener
      ensures hasListener == present
    {
      hasListener := present;
    }

    /**
     * A new width in characters recomputes the pixel width from the width
     * `mWidth` of an "m" in the current font; the same width is a no-op.
     */
    method SetTabWidth(characters: int, mWidth: real)
      modifies this`tabWidthInCharacters, this`tabWidth
      ensures tabWidthInCharacters == characters
      ensures old(tabWidthInCharacters) == characters ==> tabWidth == old(tabWidth)
      ensures old(tabWidthInCharacters) != characters ==> tabWidth == Round(mWidth * characters as real)
    {
      if tabWidthInCharacters == characters {
        return;
      }
      tabWidthInCharacters := characters;
      tabWidth := Round(mWidth * characters as real);
    }

    method HasErrorLine() returns (b: bool)
      ensures b <==> errorLine > 0
    {
      b := errorLine > 0;
    }

    method SetErrorLine(line: int)
      modifies this`errorLine
      ensures errorLine == line
    {
      errorLine := line;
    }

    /** isModified reports the dirty flag, not the `modified` one. */
    method IsModified() returns (b: bool)
      ensures b == dirty
    {
      b := dirty;
    }

    // -------------------------------------------------------------------
    // Highlighting
    // -------------------------------------------------------------------

    /** Removes every span of class `kind`, scanning from the last span to the first. */
    static method RemoveAll(es: seq<Span>, kind: SpanKind) returns (r: seq<Span>)
      ensures r == Without(es, kind)
    {
      r := es;
      var i := |es|;
      while i > 0
        invariant 0 <= i <= |es|
        invariant r == es[..i] + Without(es[i..], kind)
      {
        i := i - 1;
        assert es[i..][1..] == es[i + 1..];
        assert r[i] == es[i] && r[..i] == es[..i] && r[i + 1..] == Without(es[i + 1..], kind);
        if r[i].kind == kind {
          r := r[..i] + r[i + 1..];
        }
      }
      assert es[..0] + Without(es[0..], kind) == Without(es, kind);
    }

    /** clearSpans: the colour spans go, the tab-width spans stay, in their order. */
    static method ClearSpans(es: seq<Span>) returns (r: seq<Span>)
      ensures r == OfKind(es, TabWidth)
    {
      r := RemoveAll(es, ForegroundColor);
      r := RemoveAll(r, BackgroundColor);
      ClearLeavesTabSpans(es);
    }

    /**
     * The find() loop of ".*\n" in highlight, run at most errorLine times:
     * each find() goes from where the matcher stands to the next '\n'.  The
     * result is the last match, or None when a find() failed, after which
     * Matcher.start() throws.
     */
    static method FindLine(e: string, errorLine: int) returns (m: Option<Match>)
      requires errorLine > 0
      ensures errorLine <= |LineMatches(e)| ==> m == Some(LineMatches(e)[errorLine - 1])
      ensures errorLine > |LineMatches(e)| ==> m == None
    {
      ghost var lines := LineMatches(e);
      ghost var found := 0;
      var pos := 0;
      var i := errorLine;
      m := None;
      while i > 0
        invariant 0 <= i <= errorLine && found == errorLine - i
        invariant pos <= |e| && found <= |lines|
        invariant LinesFrom(e, pos) == lines[found..]
        invariant found > 0 ==> m == Some(lines[found - 1])
      {
        var k := IndexOf(e, '\n', pos);
        LinesFromUnfold(e, pos);
        if k < 0 {
          return None;
        }
        m := Some(Match(pos, k + 1));
        pos := k + 1;
        i := i - 1;
        found := found + 1;
      }
    }

    /** One find() loop of a rule: a foreground span per match, in `color`. */
    static method ColorMatches(ms: seq<Match>, color: int, r0: seq<Span>) returns (r: seq<Span>)
      ensures r == r0 + ColorSpans(ms, color)
    {
      r := r0;
      var a := 0;
      while a < |ms|
        invariant a <= |ms|
        invariant r == r0 + ColorSpans(ms[..a], color)
      {
        assert ColorSpans(ms[..a + 1], color)
               == ColorSpans(ms[..a], color) + [Span(ForegroundColor, ms[a].start, ms[a].end, color)];
        r := r + [Span(ForegroundColor, ms[a].start, ms[a].end, color)];
        a := a + 1;
      }
      assert ms[..a] == ms;
    }

    /** The loop over the language's rules, in table order. */
    static method ColorRules(e: string, theme: Theme, rules: seq<Rule>, oracle: RegexOracle, r0: seq<Span>)
      returns (r: seq<Span>)
      ensures r == r0 + RuleSpans(rules, e, theme, oracle)
    {
      r := r0;
      var t := 0;
      assert rules[..0] == [];
      while t < |rules|
        invariant t <= |rules|
        invariant r == r0 + RuleSpans(rules[..t], e, theme, oracle)
      {
        var rule := rules[t];
        r := ColorMatches(Matches(rule.pattern, e, oracle), GetColor(theme, rule.role), r);
        RuleSpansStep(rules, t, e, theme, oracle);
        t := t + 1;
      }
      assert rules[..t] == rules;
    }

    /** The body of highlight, on the editor's settings passed in. */
    static method HighlightWith(e: string, es: seq<Span>, errorLine: int, colorError: int, theme: Theme,
                                rules: seq<Rule>, oracle: RegexOracle) returns (r: seq<Span>)
      ensures r == OfKind(es, TabWidth) + HighlightSpans(e, errorLine, colorError, theme, rules, oracle)
    {
      r := ClearSpans(es);
      if |e| == 0 {
        return;
      }
      // the spans set on the Editable from here on, in order
      var added: seq<Span> := [];
      if errorLine > 0 {
        var m := FindLine(e, errorLine);
        if m.None? {
          // Matcher.start() after a failed find() throws IllegalStateException,
          // which highlight catches: nothing more is emitted
          return;
        }
        added := [Span(BackgroundColor, m.value.start, m.value.end, colorError)];
      }
      assert added == ErrorLineSpans(e, errorLine, colorError);
      added := ColorRules(e, theme, rules, oracle, added);
      r := r + added;
    }

    /**
     * highlight on the Editable `e` carrying the spans `es`: clear the colour
     * spans, then, for a non-empty text, the error-line background and one
     * foreground span per match of each rule.
     */
    method Highlight(e: string, es: seq<Span>) returns (r: seq<Span>)
      ensures r == OfKind(es, TabWidth) + HighlightSpans(e, errorLine, colorError, theme, language.tokens, oracle)
    {
      r := HighlightWith(e, es, errorLine, colorError, theme, language.tokens, oracle);
    }

    /** highlightWithoutChange: highlight the widget's own text with `modified` off. */
    method HighlightWithoutChange()
      modifies this`spans, this`modified
      ensures modified
      ensures spans == OfKind(old(spans), TabWidth)
                       + HighlightSpans(text, errorLine, colorError, theme, language.tokens, oracle)
    {
      modified := false;
      spans := Highlight(text, spans);
      modified := true;
    }

    method UpdateHighlighting()
      modifies this`spans, this`modified
      ensures modified
      ensures spans == OfKind(old(spans), TabWidth)
                       + HighlightSpans(text, errorLine, colorError, theme, language.tokens, oracle)
    {
      HighlightWithoutChange();
    }

    // -------------------------------------------------------------------
    // Editing
    // -------------------------------------------------------------------

    /**
     * The loop of convertTabs over the text `s`: with a tab width of at
     * least 1, a tab-width span on every '\t' at a position in
     * [start, start + count), appended to `r0`.
     */
    static method AddTabSpans(s: string, start: int, count: int, width: int, r0: seq<Span>)
      returns (r: seq<Span>)
      ensures r == r0 + TabSpans(s, start, count, width)
    {
      r := r0;
      if width < 1 {
        return;
      }
      var stop := start + count;
      var i := start;
      TabSpansArePending(s, start, count, width);
      // past the end indexOf finds nothing, so the loop stops there
      while i <= |s|
        invariant r + Pending(s, i, stop, width) == r0 + TabSpans(s, start, count, width)
        decreases |s| - i
      {
        var k := IndexOf(s, '\t', i);
        PendingStep(s, i, stop, width);
        if k < 0 || k >= stop {
          break;
        }
        r := r + [Span(TabWidth, k, k + 1, width)];
        i := k + 1;
      }
    }

    /** convertTabs on the widget's own text and spans. */
    method ConvertTabs(start: int, count: int)
      modifies this`spans
      ensures spans == old(spans) + TabSpans(text, start, count, tabWidth)
    {
      spans := AddTabSpans(text, start, count, tabWidth, spans);
    }

    /**
     * The TextWatcher's afterTextChanged, after a change that put `count`
     * characters at `start`: tab spans on the new characters, and in
     * modified mode the dirty flag and a fresh highlight.
     */
    method AfterTextChanged(start: int, count: int)
      modifies this`spans, this`dirty, this`modified
      ensures modified == old(modified)
      ensures dirty == (old(dirty) || modified)
      ensures var tabbed := old(spans) + TabSpans(text, start, count, tabWidth);
              spans == if modified
                       then OfKind(tabbed, TabWidth)
                            + HighlightSpans(text, errorLine, colorError, theme, language.tokens, oracle)
                       else tabbed
    {
      ConvertTabs(start, count);
      if !modified {
        return;
      }
      dirty := true;
      UpdateHighlighting();
    }

    /**
     * The input filter: a single '\n' typed in modified mode anywhere but at
     * the end of the buffer is followed by the indentation autoIndent computes.
     */
    method Filter(source: string, start: int, end: int, dest: string, dstart: int, dend: int)
      returns (r: string)
      requires 0 <= start <= end <= |source| && 0 <= dstart <= dend <= |dest|
      ensures r == FilterResult(modified, source, start, end, dest, dstart, dend)
    {
      if modified && end - start == 1 && start < |source| && dstart < |dest| {
        var c := source[start];
        if c == '\n' {
          r := AutoIndent(source, dest, dstart, dend);
          return;
        }
      }
      r := source;
    }

    /**
     * Editable.replace(st, en, source): the filter sees `source` against the
     * current text, its result replaces [st, en), and the watcher runs on
     * the inserted characters.  Replacing nothing by nothing returns before
     * any watcher is told.  Spans already set stay where they were.
     */
    method Replace(st: int, en: int, source: string)
      requires 0 <= st <= en <= |text|
      modifies this`text, this`spans, this`dirty, this`modified
      ensures modified == old(modified)
      ensures var r := FilterResult(modified, source, 0, |source|, old(text), st, en);
              if st == en && r == [] then
                text == old(text) && spans == old(spans) && dirty == old(dirty)
              else
                && dirty == (old(dirty) || modified)
                && text == old(text)[..st] + r + old(text)[en..]
                && var tabbed := old(spans) + TabSpans(text, st, |r|, tabWidth);
                   spans == if modified
                            then OfKind(tabbed, TabWidth)
                                 + HighlightSpans(text, errorLine, colorError, theme, language.tokens, oracle)
                            else tabbed
    {
      var r := Filter(source, 0, |source|, text, st, en);
      if st == en && r == [] {
        return;
      }
      text := text[..st] + r + text[en..];
      AfterTextChanged(st, |r|);
    }

    /** insertTab: a '\t' replaces the selection, whichever way it was made. */
    method InsertTab(selectionStart: int, selectionEnd: int)
      requires 0 <= selectionStart <= |text| && 0 <= selectionEnd <= |text|
      modifies this`text, this`spans, this`dirty, this`modified
      ensures modified == old(modified)
      ensures dirty == (old(dirty) || modified)
      ensures var lo := if selectionStart < selectionEnd then selectionStart else selectionEnd;
              var hi := if selectionStart < selectionEnd then selectionEnd else selectionStart;
              && text == old(text)[..lo] + "\t" + old(text)[hi..]
              && var tabbed := old(spans) + TabSpans(text, lo, 1, tabWidth);
                 spans == if modified
                          then OfKind(tabbed, TabWidth)
                               + HighlightSpans(text, errorLine, colorError, theme, language.tokens, oracle)
                          else tabbed
    {
      var lo := if selectionStart < selectionEnd then selectionStart else selectionEnd;
      var hi := if selectionStart < selectionEnd then selectionEnd else selectionStart;
      Replace(lo, hi, "\t");
    }

    /**
     * The spans of a new text as setTextHighlighted shows it: highlight on a
     * fresh builder with no error line, then, once setText has put it in
     * place, the tab spans of the watcher's convertTabs over the whole text.
     */
    static method ShownSpans(src: string, colorError: int, theme: Theme, rules: seq<Rule>,
                             oracle: RegexOracle, width: int) returns (r: seq<Span>)
      ensures r == HighlightSpans(src, 0, colorError, theme, rules, oracle) + TabSpans(src, 0, |src|, width)
    {
      r := HighlightWith(src, [], 0, colorError, theme, rules, oracle);
      assert OfKind([], TabWidth) == [];
      r := AddTabSpans(src, 0, |src|, width, r);
    }

    /**
     * setTextHighlighted: the new text (null counting as empty) loses its
     * non-ASCII characters, is highlighted with no error line, replaces the
     * whole text with tab spans on its tabs, and goes to the listener.
     * setText's filter sees an empty destination, so its guard fails and the
     * text goes through; `modified` is off while the watcher runs, so its
     * afterTextChanged only converts the tabs.
     */
    method SetTextHighlighted(t: Option<string>)
      modifies this`text, this`spans, this`errorLine, this`dirty, this`modified, this`notified
      ensures var src := RemoveNonAscii(if t.Some? then t.value else "");
              && text == src
              && spans == HighlightSpans(src, 0, colorError, theme, language.tokens, oracle)
                          + TabSpans(src, 0, |src|, tabWidth)
              && notified == if hasListener then old(notified) + [src] else old(notified)
      ensures errorLine == 0 && !dirty && modified
    {
      var s := if t.None? then "" else t.value;
      var src := RemoveNonAscii(s);
      // errorLine is cleared before the text is highlighted
      var shown := ShownSpans(src, colorError, theme, language.tokens, oracle, tabWidth);
      var told := if hasListener then notified + [src] else notified;
      text, spans, errorLine, dirty, modified, notified := src, shown, 0, false, true, told;
    }

    /** getCleanText: the text without the blanks at the end of each line. */
    method GetCleanText() returns (r: string)
      ensures r == CleanText(text)
    {
      r := CleanText(text);
    }
  }

  // ---------------------------------------------------------------------
  // What the methods keep
  // ---------------------------------------------------------------------

  /**
   * After a change in modified mode the tab spans are the old ones followed
   * by those of the new characters, and every other span is the fresh
   * highlight.
   */
  lemma AfterChangeSpans(old_spans: seq<Span>, text: string, start: int, count: int, width: int,
                         errorLine: int, colorError: int, theme: Theme, rules: seq<Rule>, oracle: RegexOracle)
    ensures var tabs := TabSpans(text, start, count, width);
            var h := HighlightSpans(text, errorLine, colorError, theme, rules, oracle);
            var r := OfKind(old_spans + tabs, TabWidth) + h;
            && OfKind(r, TabWidth) == OfKind(old_spans, TabWidth) + tabs
            && Without(r, TabWidth) == h
  {
    var tabs := TabSpans(text, start, count, width);
    var h := HighlightSpans(text, errorLine, colorError, theme, rules, oracle);
    var kept := OfKind(old_spans + tabs, TabWidth);
    TabSpansExact(text, start, count, width);
    forall p | 0 <= p < |h| ensures h[p].kind != TabWidth {
      HighlightSpanKind(text, errorLine, colorError, theme, rules, oracle, p);
    }
    OfKindAppend(kept, h, TabWidth);
    OfKindNone(h, TabWidth);
    OfKindIdempotent(old_spans + tabs, TabWidth);
    OfKindAppend(old_spans, tabs, TabWidth);
    OfKindAll(tabs, TabWidth);
    WithoutAppend(kept, h, TabWidth);
    WithoutOfKind(kept, TabWidth);
    WithoutNone(h, TabWidth);
  }

  /** Highlighting twice leaves the spans of highlighting once. */
  lemma HighlightTwice(spans: seq<Span>, text: string, errorLine: int, colorError: int,
                       theme: Theme, rules: seq<Rule>, oracle: RegexOracle)
    ensures var h := HighlightSpans(text, errorLine, colorError, theme, rules, oracle);
            var once := OfKind(spans, TabWidth) + h;
            OfKind(once, TabWidth) + h == once
  {
    HighlightKeepsTabSpans(spans, text, errorLine, colorError, theme, rules, oracle);
  }

  /**
   * A '\n' typed in modified mode before the end of the text gets the
   * indentation of its line; typed at the end, or any other insertion,
   * goes in as typed.
   */
  lemma TypedNewline(modified: bool, text: string, st: nat, en: nat)
    requires st <= en <= |text|
    ensures st < |text| && modified ==>
              FilterResult(modified, "\n", 0, 1, text, st, en) == "\n" + Indentation(text, st, en)
    ensures st == |text| || !modified ==> FilterResult(modified, "\n", 0, 1, text, st, en) == "\n"
  {
  }
}
