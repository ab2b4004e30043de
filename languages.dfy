// Language definitions: the ordered rule table of LuaLanguageDefinition and
// the way a rule's pattern finds its matches in the text.
//
// Three of the Lua rules are one-character classes and one is the literal
// alternation `and|not|or`; those are matched here exactly as
// java.util.regex's Matcher.find() loop does.  The other five rules use
// word boundaries, lazy or greedy quantifiers, lookahead and MULTILINE `$`;
// their matches come from an oracle standing for the regex engine.

module Languages {
  import opened Themes

  /** One successful find(): the half-open range [start, end) it matched. */
  datatype Match = Match(start: nat, end: nat)

  /**
   * What a find() loop can report: non-empty ranges inside the text, in
   * increasing order, none overlapping the next.
   */
  predicate WellFormedMatches(ms: seq<Match>, n: nat) {
    && (forall i :: 0 <= i < |ms| ==> ms[i].start < ms[i].end <= n)
    && (forall i, j :: 0 <= i < j < |ms| ==> ms[i].end <= ms[j].start)
  }

  /** A match that ends before every match of a well-formed list can be put in front of it. */
  lemma ConsWellFormed(m: Match, rest: seq<Match>, n: nat)
    requires m.start < m.end <= n && WellFormedMatches(rest, n)
    requires forall j :: 0 <= j < |rest| ==> m.end <= rest[j].start
    ensures WellFormedMatches([m] + rest, n)
    ensures forall k :: 0 < k < |[m] + rest| ==> ([m] + rest)[k] == rest[k - 1]
  {
    var ms := [m] + rest;
    assert forall k :: 0 < k < |ms| ==> ms[k] == rest[k - 1];
  }

  /** The regex engine: all matches of a pattern (given by its source) in a text. */
  type RegexOracle = (string, string) -> seq<Match>

  /**
   * The engine behaves like find() on the regex patterns of `rules` in
   * `text`: its matches there are in bounds, increasing and disjoint.
   */
  ghost predicate OracleWellFormed(oracle: RegexOracle, rules: seq<Rule>, text: string) {
    forall i :: 0 <= i < |rules| && rules[i].pattern.Regex? ==>
      WellFormedMatches(oracle(rules[i].pattern.source, text), |text|)
  }

  /** The pattern of a rule. */
  datatype Pattern =
    | CharClass(chars: set<char>)      // a class such as [\=\~\>\<]: one character
    | Alternation(words: seq<string>)  // literal alternatives tried in order, such as and|not|or
    | Regex(source: string)            // any other pattern, matched by the oracle

  /** A Token: its name, its pattern and the colour role it paints with. */
  datatype Rule = Rule(name: string, pattern: Pattern, role: ColorName)

  datatype LanguageDefinition = LanguageDefinition(
    langName: string,
    fileExtensions: seq<string>,
    tokens: seq<Rule>)

  // ---------------------------------------------------------------------
  // Matching
  // ---------------------------------------------------------------------

  /** find() loop of a one-character class, from position `i` on. */
  function ClassMatches(text: string, chars: set<char>, i: nat): seq<Match>
    requires i <= |text|
    decreases |text| - i
  {
    if i == |text| then []
    else
      var rest := ClassMatches(text, chars, i + 1);
      if text[i] !in chars then rest
      else [Match(i, i + 1)] + rest
  }

  /** Every match of a class is one character of the class, at or after `i`. */
  lemma {:induction false} ClassMatchesSpec(text: string, chars: set<char>, i: nat)
    requires i <= |text|
    ensures forall k :: 0 <= k < |ClassMatches(text, chars, i)| ==>
              var m := ClassMatches(text, chars, i)[k];
              i <= m.start < |text| && m.end == m.start + 1 && text[m.start] in chars
    decreases |text| - i
  {
    if i < |text| {
      var rest := ClassMatches(text, chars, i + 1);
      ClassMatchesSpec(text, chars, i + 1);
      if text[i] in chars {
        var ms := [Match(i, i + 1)] + rest;
        assert forall k :: 0 < k < |ms| ==> ms[k] == rest[k - 1];
      }
    }
  }

  /** The matches of a class are one-character ranges in increasing order. */
  lemma {:induction false} ClassMatchesWellFormed(text: string, chars: set<char>, i: nat)
    requires i <= |text|
    ensures WellFormedMatches(ClassMatches(text, chars, i), |text|)
    decreases |text| - i
  {
    if i < |text| {
      var rest := ClassMatches(text, chars, i + 1);
      ClassMatchesWellFormed(text, chars, i + 1);
      if text[i] in chars {
        ClassMatchesSpec(text, chars, i + 1);
        ConsWellFormed(Match(i, i + 1), rest, |text|);
      }
    }
  }

  /** Every character of the class at or after `i` is matched, on its own. */
  lemma {:induction false} ClassMatchesCover(text: string, chars: set<char>, i: nat, p: nat)
    requires i <= p < |text| && text[p] in chars
    ensures Match(p, p + 1) in ClassMatches(text, chars, i)
    decreases p - i
  {
    if i < p {
      ClassMatchesCover(text, chars, i + 1, p);
    }
  }

  /**
   * Length of the first non-empty alternative that occurs at position `i`,
   * trying them in order as the regex engine does; 0 when none does.
   */
  function WordAt(text: string, words: seq<string>, i: nat): (n: nat)
    requires i <= |text|
    ensures i + n <= |text|
    decreases |words|
  {
    if words == [] then 0
    else
      var w := words[0];
      if 0 < |w| && i + |w| <= |text| && text[i..i + |w|] == w then |w|
      else WordAt(text, words[1..], i)
  }

  /** A length WordAt reports is that of one of the words, found at `i`. */
  lemma {:induction false} WordAtSpec(text: string, words: seq<string>, i: nat)
    requires i <= |text|
    ensures var n := WordAt(text, words, i);
            n > 0 ==> text[i..i + n] in words
    decreases |words|
  {
    if words != [] {
      var w := words[0];
      if !(0 < |w| && i + |w| <= |text| && text[i..i + |w|] == w) {
        WordAtSpec(text, words[1..], i);
        var n := WordAt(text, words[1..], i);
        if n > 0 {
          var k :| 0 <= k < |words[1..]| && words[1..][k] == text[i..i + n];
          assert words[k + 1] == text[i..i + n];
        }
      }
    }
  }

  /** find() loop of an alternation of literals, from position `i` on. */
  function AltMatches(text: string, words: seq<string>, i: nat): seq<Match>
    requires i <= |text|
    decreases |text| - i
  {
    if i == |text| then []
    else
      var n := WordAt(text, words, i);
      if n > 0 then [Match(i, i + n)] + AltMatches(text, words, i + n)
      else AltMatches(text, words, i + 1)
  }

  /** Every match of an alternation is an occurrence of one of its words, at or after `i`. */
  lemma {:induction false} AltMatchesSpec(text: string, words: seq<string>, i: nat)
    requires i <= |text|
    ensures forall k :: 0 <= k < |AltMatches(text, words, i)| ==>
              var m := AltMatches(text, words, i)[k];
              i <= m.start < m.end <= |text| && text[m.start..m.end] in words
    decreases |text| - i
  {
    if i < |text| {
      var n := WordAt(text, words, i);
      if n > 0 {
        var rest := AltMatches(text, words, i + n);
        AltMatchesSpec(text, words, i + n);
        WordAtSpec(text, words, i);
        var ms := [Match(i, i + n)] + rest;
        assert forall k :: 0 < k < |ms| ==> ms[k] == rest[k - 1];
      } else {
        AltMatchesSpec(text, words, i + 1);
      }
    }
  }

  /** The matches of an alternation are non-empty ranges in increasing order. */
  lemma {:induction false} AltMatchesWellFormed(text: string, words: seq<string>, i: nat)
    requires i <= |text|
    ensures WellFormedMatches(AltMatches(text, words, i), |text|)
    decreases |text| - i
  {
    if i < |text| {
      var n := WordAt(text, words, i);
      if n > 0 {
        AltMatchesWellFormed(text, words, i + n);
        AltMatchesSpec(text, words, i + n);
        ConsWellFormed(Match(i, i + n), AltMatches(text, words, i + n), |text|);
      } else {
        AltMatchesWellFormed(text, words, i + 1);
      }
    }
  }

  /** All matches of a pattern in `text`, left to right. */
  function Matches(p: Pattern, text: string, oracle: RegexOracle): seq<Match> {
    match p
    case CharClass(chars) => ClassMatches(text, chars, 0)
    case Alternation(words) => AltMatches(text, words, 0)
    case Regex(source) => oracle(source, text)
  }

  /** Matches are well formed for the built-in patterns, and for regexes when the engine is. */
  lemma MatchesWellFormed(p: Pattern, text: string, oracle: RegexOracle)
    requires p.Regex? ==> WellFormedMatches(oracle(p.source, text), |text|)
    ensures WellFormedMatches(Matches(p, text, oracle), |text|)
  {
    match p
    case CharClass(chars) => ClassMatchesWellFormed(text, chars, 0);
    case Alternation(words) => AltMatchesWellFormed(text, words, 0);
    case Regex(_) =>
  }

  // ---------------------------------------------------------------------
  // LuaLanguageDefinition
  // ---------------------------------------------------------------------

  /** [\+\-\*\/\%\^\-] */
  const OperatorChars: set<char> := {'+', '-', '*', '/', '%', '^'}
  /** [\=\~\>\<] */
  const LogicalOperatorChars: set<char> := {'=', '~', '>', '<'}
  /** [\.\#\%\[\]\(\)] */
  const MiscOperatorChars: set<char> := {'.', '#', '%', '[', ']', '(', ')'}

  /** and|not|or */
  const LogicalKeywords: seq<string> := ["and", "not", "or"]
  /** The sources of the five rules the regex engine matches. */
  const NumberPattern: string := "\\b(\\d*[.]?\\d+)\\b"
  const KeywordPattern: string :=
    "\\b(and|break|do|else|elseif|end|false|for|function|if|in|local|nil|not|or|repeat|return|then|true|until|while|var)\\b"
  const StringPattern: string := "\\\".*?\\\"|'.*'"
  const SingleLineCommentPattern: string := "--(?!\\[\\[).*?$"
  const MultiLineCommentPattern: string := "--\\[\\[((.|\\n)*)\\]\\]"

  /** The Lua definition: its name, its one extension and its nine rules in order. */
  function Lua(): (l: LanguageDefinition)
    ensures l.langName == "lua" && l.fileExtensions == [".lua"]
    ensures |l.tokens| == 9
  {
    LanguageDefinition("lua", [".lua"], [
      Rule("number", Regex(NumberPattern), Number),
      Rule("operator", CharClass(OperatorChars), Operator),
      Rule("logicalOperator", CharClass(LogicalOperatorChars), Operator),
      Rule("logicalKeyword", Alternation(LogicalKeywords), Keyword),
      Rule("miscOperator", CharClass(MiscOperatorChars), Operator),
      Rule("keyword", Regex(KeywordPattern), Keyword),
      Rule("string", Regex(StringPattern), String),
      Rule("singleLineComment", Regex(SingleLineCommentPattern), CommentSingle),
      Rule("multiLineComment", Regex(MultiLineCommentPattern), CommentMulti)
    ])
  }

  /** The rule names, in table order. */
  function RuleNames(rules: seq<Rule>): (names: seq<string>)
    ensures |names| == |rules|
    ensures forall i :: 0 <= i < |rules| ==> names[i] == rules[i].name
  {
    seq(|rules|, i requires 0 <= i < |rules| => rules[i].name)
  }

  /**
   * The table order, and the role bindings: the three operator rules paint
   * with Operator, the two keyword rules with Keyword, and each of the other
   * four rules with its own role.
   */
  lemma LuaTable()
    ensures RuleNames(Lua().tokens) == ["number", "operator", "logicalOperator", "logicalKeyword",
                                        "miscOperator", "keyword", "string", "singleLineComment",
                                        "multiLineComment"]
    ensures forall i :: 0 <= i < 9 ==>
              (Lua().tokens[i].role == Operator <==> i in {1, 2, 4}) &&
              (Lua().tokens[i].role == Keyword <==> i in {3, 5})
    ensures Lua().tokens[0].role == Number && Lua().tokens[6].role == String
    ensures Lua().tokens[7].role == CommentSingle && Lua().tokens[8].role == CommentMulti
  {
  }

  /**
   * Each of the three operator rules matches exactly the single characters
   * of its class, one match per occurrence.
   */
  lemma {:induction false} LuaOperatorRulesMatchOneChar(i: nat, text: string, oracle: RegexOracle, p: nat)
    requires i in {1, 2, 4}
    ensures Lua().tokens[i].pattern.CharClass?
    ensures var cs := Lua().tokens[i].pattern.chars;
            var ms := Matches(Lua().tokens[i].pattern, text, oracle);
            && (forall k :: 0 <= k < |ms| ==> ms[k].start < |text| && ms[k].end == ms[k].start + 1 && text[ms[k].start] in cs)
            && (p < |text| && text[p] in cs ==> Match(p, p + 1) in ms)
    ensures i == 1 ==> Lua().tokens[i].pattern.chars == {'+', '-', '*', '/', '%', '^'}
    ensures i == 2 ==> Lua().tokens[i].pattern.chars == {'=', '~', '>', '<'}
    ensures i == 4 ==> Lua().tokens[i].pattern.chars == {'.', '#', '%', '[', ']', '(', ')'}
  {
    ClassMatchesSpec(text, Lua().tokens[i].pattern.chars, 0);
    if p < |text| && text[p] in Lua().tokens[i].pattern.chars {
      ClassMatchesCover(text, Lua().tokens[i].pattern.chars, 0, p);
    }
  }

  /** '%' is matched by both `operator` and `miscOperator`, and both paint it as Operator. */
  lemma PercentMatchedTwice(text: string, oracle: RegexOracle, p: nat)
    requires p < |text| && text[p] == '%'
    ensures Match(p, p + 1) in Matches(Lua().tokens[1].pattern, text, oracle)
    ensures Match(p, p + 1) in Matches(Lua().tokens[4].pattern, text, oracle)
    ensures Lua().tokens[1].role == Lua().tokens[4].role == Operator
  {
    LuaOperatorRulesMatchOneChar(1, text, oracle, p);
    LuaOperatorRulesMatchOneChar(4, text, oracle, p);
  }

  /**
   * `logicalKeyword` has no word boundaries: the `or` inside `for` is a
   * match, and so is the `and` inside `band`.
   */
  lemma LogicalKeywordInsideWords(oracle: RegexOracle)
    ensures Matches(Lua().tokens[3].pattern, "for", oracle) == [Match(1, 3)]
    ensures Matches(Lua().tokens[3].pattern, "band", oracle) == [Match(1, 4)]
  {
    assert Lua().tokens[3].pattern == Alternation(LogicalKeywords);
    OrInsideFor();
    AndInsideBand();
  }

  /**
   * Every occurrence of `and`, `not` or `or` in the text is a match of
   * `logicalKeyword`, inside a longer word or not.
   */
  lemma LogicalKeywordMatchesEveryOccurrence(text: string, oracle: RegexOracle, p: nat, w: string)
    requires w in LogicalKeywords && p + |w| <= |text| && text[p..p + |w|] == w
    ensures Match(p, p + |w|) in Matches(Lua().tokens[3].pattern, text, oracle)
  {
    assert Lua().tokens[3].pattern == Alternation(LogicalKeywords);
    AltMatchesCover(text, 0, p, w);
  }

  /** An occurrence of a keyword at or after `i` is matched by the find() loop started at `i`. */
  lemma {:induction false} AltMatchesCover(text: string, i: nat, p: nat, w: string)
    requires w in LogicalKeywords && i <= p && p + |w| <= |text| && text[p..p + |w|] == w
    ensures Match(p, p + |w|) in AltMatches(text, LogicalKeywords, i)
    decreases p - i
  {
    var n := WordAt(text, LogicalKeywords, i);
    if i == p {
      WordAtKeyword(text, p, w);
      assert AltMatches(text, LogicalKeywords, i)[0] == Match(p, p + |w|);
    } else if n > 0 {
      WordAtSpec(text, LogicalKeywords, i);
      KeywordsApart(text, i, text[i..i + n], p, w);
      AltMatchesCover(text, i + n, p, w);
      assert AltMatches(text, LogicalKeywords, i) == [Match(i, i + n)] + AltMatches(text, LogicalKeywords, i + n);
    } else {
      AltMatchesCover(text, i + 1, p, w);
      assert AltMatches(text, LogicalKeywords, i) == AltMatches(text, LogicalKeywords, i + 1);
    }
  }

  /** The keywords start with different letters, so the one at `p` is the one tried first that fits. */
  lemma WordAtKeyword(text: string, p: nat, w: string)
    requires w in LogicalKeywords && p + |w| <= |text| && text[p..p + |w|] == w
    ensures WordAt(text, LogicalKeywords, p) == |w|
  {
    assert text[p] == w[0];
    var words := LogicalKeywords;
    assert words[1..] == ["not", "or"] && words[1..][1..] == ["or"];
    if p + 3 <= |text| {
      assert text[p..p + 3][0] == text[p];
    }
  }

  /**
   * No keyword ends inside another one: no proper suffix of `and`, `not`
   * or `or` starts a keyword.  So a keyword matched at `i` ends before a
   * keyword occurring at a later `p`.
   */
  lemma KeywordsApart(text: string, i: nat, u: string, p: nat, w: string)
    requires u in LogicalKeywords && w in LogicalKeywords
    requires i < p && i + |u| <= |text| && p + |w| <= |text|
    requires text[i..i + |u|] == u && text[p..p + |w|] == w
    ensures i + |u| <= p
  {
    if p < i + |u| {
      SuffixStartsNoKeyword(u, w, p - i);
    }
  }

  /** From a proper suffix of a keyword on, the characters disagree with any keyword's start. */
  lemma SuffixStartsNoKeyword(u: string, w: string, k: nat)
    requires u in LogicalKeywords && w in LogicalKeywords && 0 < k < |u|
    ensures u[k] != w[0] || (k + 1 < |u| && u[k + 1] != w[1])
  {
  }

  lemma OrInsideFor()
    ensures AltMatches("for", LogicalKeywords, 0) == [Match(1, 3)]
  {
    var words := LogicalKeywords;
    assert WordAt("for", words, 0) == 0 by {
      assert "for"[0..3] == "for" && "for"[0..2] == "fo";
    }
    assert WordAt("for", words, 1) == 2 by {
      assert "for"[1..3] == "or";
    }
    assert AltMatches("for", words, 3) == [];
  }

  lemma AndInsideBand()
    ensures AltMatches("band", LogicalKeywords, 0) == [Match(1, 4)]
  {
    var words := LogicalKeywords;
    assert WordAt("band", words, 0) == 0 by {
      assert "band"[0..3] == "ban" && "band"[0..2] == "ba";
    }
    assert WordAt("band", words, 1) == 3 by {
      assert "band"[1..4] == "and";
    }
    assert AltMatches("band", words, 4) == [];
  }

  /** The string rule comes after every operator rule and both comment rules after it. */
  lemma LuaStringAndCommentsAfterOperators(i: nat, j: nat)
    requires i < 9 && j < 9
    requires Lua().tokens[i].role == Operator
    requires Lua().tokens[j].role in {String, CommentSingle, CommentMulti}
    ensures i < j
  {
    LuaTable();
  }
}
