/**
 The examples of snippet/vars_test.go and snippet/snippet_test.go, stated
 about the model.
 */
module Scenarios {
  import opened Wrappers
  import opened GoStrings
  import opened Strconv
  import opened Record
  import opened Lists
  import opened Vars
  import opened Parser

  /** `$13` reads index 13. */
  lemma ParseVarDollar13()
    ensures ParseVar("$13") == Some(Var(13, ""))
  {
    ParseVarDollar13Of("$13", 13);
  }

  lemma ParseVarDollar13Of(v: string, n: nat)
    requires v == "$13" && n == 13
    ensures ParseVar(v) == Some(Var(n, ""))
  {
    DecimalThirteen(n);
    ParseDollarNumber(n);
  }

  lemma DecimalThirteen(n: nat)
    requires n == 13
    ensures "$" + Decimal(n) == "$13"
  {
    assert Decimal(n / 10) == "1";
    assert Decimal(n) == "13";
  }

  /** `${0}` reads index 0 with an empty default. */
  lemma ParseVarBracedZero()
    ensures ParseVar("${0}") == Some(Var(0, ""))
  {
    assert "${" + "0" + "}" == "${0}";
    ParseBraced("0");
    ParseIntDigit('0');
  }

  /** `${2}` reads index 2 with an empty default. */
  lemma ParseVarBracedTwo()
    ensures ParseVar("${2}") == Some(Var(2, ""))
  {
    assert "${" + "2" + "}" == "${2}";
    ParseBraced("2");
    ParseIntDigit('2');
  }

  /** `${1:fn}` reads index 1 and default `fn`. */
  lemma ParseVarWithDefault()
    ensures ParseVar("${1:fn}") == Some(Var(1, "fn"))
  {
    assert "${" + ("1" + ":" + "fn") + "}" == "${1:fn}" by {
      assert "1" + ":" + "fn" == "1:fn";
    }
    SplitWithoutSeparator("fn", ':');
    ParseBracedWithDefault("1", "fn");
    ParseIntDigit('1');
  }

  /** `${1:a:b}` splits at every colon: the default is `a`, and `b` is
      dropped. */
  lemma ParseVarTwoColons()
    ensures ParseVar("${1:a:b}") == Some(Var(1, "a"))
  {
    assert "${" + ("1" + ":" + "a:b") + "}" == "${1:a:b}" by {
      assert "1" + ":" + "a:b" == "1:a:b";
    }
    assert Split("a:b", ":")[0] == "a" by {
      assert "a:b" == "a" + [':'] + "b";
      SplitAtFirst("a", ':', "b");
    }
    ParseBracedWithDefault("1", "a:b");
    ParseIntDigit('1');
  }

  /** `${10:someUrl}` reads index 10 and default `someUrl`. */
  lemma ParseVarWithDefaultTen()
    ensures ParseVar("${10:someUrl}") == Some(Var(10, "someUrl"))
  {
    var n :| n == "10";
    var x :| x == "someUrl";
    TenSomeUrl(n, x);
    SomeUrlPiece(x);
    TenIndex(n);
    ParseBracedWithDefault(n, x);
  }

  /** The text of `${10:someUrl}` around its colon. */
  lemma TenSomeUrl(n: string, x: string)
    requires n == "10" && x == "someUrl"
    ensures ':' !in n && '}' !in n && '}' !in x && n[0] != '{' && x[|x| - 1] != '{'
    ensures "${" + (n + ":" + x) + "}" == "${10:someUrl}"
  {
    assert n + ":" + x == "10:someUrl";
  }

  lemma SomeUrlPiece(x: string)
    requires x == "someUrl"
    ensures Split(x, ":") == [x]
  {
    SplitWithoutSeparator(x, ':');
  }

  lemma TenIndex(n: string)
    requires n == "10"
    ensures ParseInt(n) == Some(10)
  {
    DecimalTen();
    ParseDecimal(10);
  }

  lemma DecimalTen()
    ensures Decimal(10) == "10"
  {
    assert Decimal(1) == "1";
  }

  /** With arguments `["foo"]`: `$0` and `${0}` give `foo`; `${1:bar}` has
      no argument and gives its default. */
  lemma ExpandVarDollarZero()
    ensures !NegativeIndex("$0") && ExpandVar("$0", ["foo"]) == "foo"
  {
    ParseDollarDigit('0');
  }

  lemma ExpandVarBracedZero()
    ensures !NegativeIndex("${0}") && ExpandVar("${0}", ["foo"]) == "foo"
  {
    ParseVarBracedZero();
  }

  lemma ExpandVarDefault()
    ensures !NegativeIndex("${1:bar}") && ExpandVar("${1:bar}", ["foo"]) == "bar"
  {
    assert "${" + ("1" + ":" + "bar") + "}" == "${1:bar}" by {
      assert "1" + ":" + "bar" == "1:bar";
    }
    SplitWithoutSeparator("bar", ':');
    ParseBracedWithDefault("1", "bar");
    ParseIntDigit('1');
  }

  /** Text without placeholders is returned as it is. */
  lemma ExpandVarsPlain()
    ensures Expandable(Tokens("{} [] () ]({"))
    ensures ExpandVars("{} [] () ]({", ["foo", "bar"]) == "{} [] () ]({"
  {
    NoDollarUnchanged("{} [] () ]({", ["foo", "bar"]);
  }

  /** In `$0 - $1` the pattern matches `$0` and `$1` ... */
  lemma TwoDollarsMatches()
    ensures Matches(7, PatternAt("$0 - $1"), 0, [Span(0, 2), Span(5, 7)])
  {
    var t := "$0 - $1";
    assert PatternAt(t)(0) == TokenAt(t, 0) == Some(2);
    assert PatternAt(t)(5) == TokenAt(t, 5) == Some(2);
  }

  /** ... and nothing else. */
  lemma TwoDollarsNoneMissed()
    ensures NoneMissed(7, PatternAt("$0 - $1"), 0, [Span(0, 2), Span(5, 7)])
  {
    var t := "$0 - $1";
    var sp := [Span(0, 2), Span(5, 7)];
    var at := PatternAt(t);
    forall p | 0 <= p < |t| && p != 0 && p != 5 ensures at(p).None? {
      assert t[p] != '$';
    }
    assert sp[0].start <= 0 < sp[0].end && sp[1].start <= 5 < sp[1].end;
    assert !Uncovered(sp, 0) && !Uncovered(sp, 5);
  }

  /** The tokens of `$0 - $1`. */
  lemma TokensTwoDollars()
    ensures Tokens("$0 - $1") == ["$0", "$1"]
  {
    TokensTwoDollarsOf("$0 - $1");
  }

  lemma TokensTwoDollarsOf(t: string)
    requires t == "$0 - $1"
    ensures Tokens(t) == ["$0", "$1"]
  {
    var sp := [Span(0, 2), Span(5, 7)];
    LeftmostTwoDollars(t);
    TokensOf(t, sp);
    TextsTwoDollars(t);
  }

  lemma LeftmostTwoDollars(t: string)
    requires t == "$0 - $1"
    ensures Leftmost(|t|, PatternAt(t), 0, [Span(0, 2), Span(5, 7)])
  {
    assert |t| == 7;
    TwoDollarsMatches();
    TwoDollarsNoneMissed();
  }

  lemma TextsTwoDollars(t: string)
    requires t == "$0 - $1"
    ensures Texts(t, [Span(0, 2), Span(5, 7)]) == ["$0", "$1"]
  {
    assert t[0..2] == "$0" && t[5..7] == "$1";
  }

  /** In `$13` the pattern matches `$1` only: the bare form takes a single
      digit. */
  lemma LeftmostDollar13(t: string)
    requires t == "$13"
    ensures Leftmost(|t|, PatternAt(t), 0, [Span(0, 2)])
  {
    var sp := [Span(0, 2)];
    var at := PatternAt(t);
    assert at(0) == TokenAt(t, 0) == Some(2);
    forall p | 0 < p < |t| ensures at(p).None? {
      assert t[p] != '$';
    }
    assert sp[0].start <= 0 < sp[0].end;
    assert !Uncovered(sp, 0);
  }

  /** `$13` holds one token, `$1`. */
  lemma TokensDollar13()
    ensures Tokens("$13") == ["$1"]
  {
    var t := "$13";
    LeftmostDollar13(t);
    TokensOf(t, [Span(0, 2)]);
    assert Texts(t, [Span(0, 2)])[0] == t[0..2] == "$1";
  }

  /** `$13` with `["a", "b"]` gives `b3`. */
  lemma ExpandVarsDollar13()
    ensures Expandable(Tokens("$13"))
    ensures ExpandVars("$13", ["a", "b"]) == "b3"
  {
    var args := ["a", "b"];
    TokensDollar13();
    ExpandDollarDigit('1', args);
    ReplaceDollar13();
    ExpandOneToken("$13", "$1", args);
  }

  lemma ReplaceDollar13()
    ensures ReplaceAll("$13", "$1", "b") == "b3"
  {
    assert "$13" == "" + "$1" + "3";
    assert "" + "b" + "3" == "b3";
    ReplaceAllAfter("", "$1", "3", "b");
  }

  /** `$0 - $1` with `["foo", "bar"]` gives `foo - bar`. */
  lemma ExpandVarsTwoDollars()
    ensures Expandable(Tokens("$0 - $1"))
    ensures ExpandVars("$0 - $1", ["foo", "bar"]) == "foo - bar"
  {
    var args := ["foo", "bar"];
    TokensTwoDollars();
    ExpandDollarDigit('0', args);
    ExpandDollarDigit('1', args);
    ReplaceFirstDollar();
    ReplaceSecondDollar();
    ExpandTwoTokens("$0 - $1", "$0", "$1", args);
  }

  lemma ReplaceFirstDollar()
    ensures ReplaceAll("$0 - $1", "$0", "foo") == "foo - $1"
  {
    assert "$0 - $1" == "" + "$0" + " - $1";
    assert "foo" + " - $1" == "foo - $1";
    ReplaceAllAfter("", "$0", " - $1", "foo");
    var u := " - $1";
    assert u[3..][..2][1] != "$0"[1];
    assert Absent(u[3..][1..], "$0");
    assert Absent(u[3..], "$0");
    assert Absent(u[2..], "$0");
    assert Absent(u[1..], "$0");
    assert Absent(u, "$0");
    ReplaceAllAbsent(" - $1", "$0", "foo");
  }

  lemma ReplaceSecondDollar()
    ensures ReplaceAll("foo - $1", "$1", "bar") == "foo - bar"
  {
    assert "foo - $1" == "foo - " + "$1" + "";
    assert "foo - " + "bar" == "foo - bar";
    ReplaceAllAfter("foo - ", "$1", "", "bar");
  }

  /** A `$` that starts no occurrence does not hide the next one: in
      `$b $1` the token `$1` is still replaced. */
  lemma ReplaceAfterStrayDollar(rep: string)
    ensures ReplaceAll("$b $1", "$1", rep) == "$b " + rep
  {
    var x :| x == "$b ";
    var pat :| pat == "$1";
    var s := x + pat + [];
    assert s == "$b $1";
    forall i | 0 <= i < |x| ensures !OccursAt(s, pat, i) {
      assert s[i..i + |pat|][0] == s[i] && s[i..i + |pat|][1] == s[i + 1];
    }
    ReplaceAllFirst(x, pat, [], rep);
  }

  /** `$d` expands to argument `d` when it is present and not empty. */
  lemma ExpandDollarDigit(d: char, args: seq<string>)
    requires IsAsciiDigit(d)
    requires (d as int - '0' as int) < |args| && args[d as int - '0' as int] != ""
    ensures !NegativeIndex(['$', d]) && ExpandVar(['$', d], args) == args[d as int - '0' as int]
  {
    var v :| v == ['$', d];
    DollarDigitVar(v, d);
    ExpandPresent(v, d as int - '0' as int, args);
  }

  /** `$d` names argument `d`, stated of a token held in a variable. */
  lemma DollarDigitVar(v: string, d: char)
    requires IsAsciiDigit(d) && v == ['$', d]
    ensures ParseVar(v) == Some(Var(d as int - '0' as int, ""))
  {
    ParseDollarDigit(d);
  }

  /** A token that parses to index `i` with no default expands to a present,
      non-empty argument `i`. */
  lemma ExpandPresent(v: string, i: int, args: seq<string>)
    requires ParseVar(v) == Some(Var(i, ""))
    requires 0 <= i < |args| && args[i] != ""
    ensures !NegativeIndex(v) && ExpandVar(v, args) == args[i]
  {
  }

  /** One more indented body line after a state with an open snippet. */
  lemma RunIndented(p: seq<string>, res: seq<Snippet>, c: Snippet, raw: string, n: nat, w: string)
    requires Run(p) == State(res, Some(c))
    requires w != [] && Trimmed(w) && Classify(w) == Body && raw == Spaces(n) + w
    ensures Run(p + [raw]) ==
      State(res, Some(c.(body := c.body + [raw],
                         bodyMinIndent := if n < c.bodyMinIndent then n else c.bodyMinIndent)))
  {
    RunSnoc(p, raw);
    StepIndented(res, c, n, w);
  }

  /** One more empty line after a state with an open snippet. */
  lemma RunEmptyLine(p: seq<string>, res: seq<Snippet>, c: Snippet)
    requires Run(p) == State(res, Some(c))
    ensures Run(p + [""]) == State(res, Some(c.(body := c.body + [""])))
  {
    RunSnoc(p, "");
    StepEmpty(State(res, Some(c)));
  }

  /** `foobar` is an ordinary body text. */
  lemma FoobarIsBody()
    ensures Trimmed("foobar") && Classify("foobar") == Body
  {
  }

  /** The first body line of `foo` fixes its margin at 4. */
  lemma RunFoobar(p: seq<string>, c: Snippet, body: string)
    requires Run(p) == State([], Some(c)) && c.body == [] && c.bodyMinIndent == MaxInt64
    requires body == Spaces(4) + "foobar"
    ensures Run(p + [body]) == State([], Some(c.(body := [body], bodyMinIndent := 4)))
  {
    FoobarIsBody();
    RunIndented(p, [], c, body, 4, "foobar");
    assert [] + [body] == [body];
  }

  /** A header line after any state. */
  lemma RunHeaderLine(p: seq<string>, st: State, name: string)
    requires Run(p) == st && name != [] && NoSpace(name)
    ensures Run(p + ["snippet " + name]) == State(Add(st.res, st.current), Some(NewSnippet(name)))
  {
    RunSnoc(p, "snippet " + name);
    StepHeaderNamed(st, name);
  }

  /** An alias line after a state with an open snippet. */
  lemma RunAliasLine(p: seq<string>, res: seq<Snippet>, c: Snippet, a: string)
    requires Run(p) == State(res, Some(c)) && a != [] && NoSpace(a)
    ensures Run(p + ["alias " + a]) == State(res, Some(c.(alias := a)))
  {
    RunSnoc(p, "alias " + a);
    StepAliasNamed(res, c, a);
  }

  /** An abbreviation line after a state with an open snippet. */
  lemma RunAbbrLine(p: seq<string>, res: seq<Snippet>, c: Snippet, text: string)
    requires Run(p) == State(res, Some(c)) && text != [] && Trimmed(text)
    ensures Run(p + ["abbr " + text]) == State(res, Some(c.(abbr := text)))
  {
    RunSnoc(p, "abbr " + text);
    StepAbbrText(res, c, text);
  }

  /** The lines of the parse example up to the directives of `foo`. */
  function FooHead(): seq<string> {
    [""] + ["snippet " + "foo"] + ["alias " + "f"] + ["abbr " + "foo ..."]
  }

  /** The first snippet of the parse example, with its body line left open. */
  function FooLines(body: string): seq<string> {
    FooHead() + [body] + [""]
  }

  /** After the directives, `foo` is open with alias and abbreviation set. */
  lemma RunFooHead()
    ensures Run(FooHead()) == State([], Some(NewSnippet("foo").(alias := "f", abbr := "foo ...")))
  {
    var c0 := NewSnippet("foo");
    var p1 := [""];
    var p2 := p1 + ["snippet " + "foo"];
    var p3 := p2 + ["alias " + "f"];
    assert Run(p1) == State([], None) by {
      RunSnoc([], "");
      assert [] + [""] == p1;
      StepEmpty(State([], None));
    }
    assert NoSpace("foo") && NoSpace("f") && Trimmed("foo ...");
    RunHeaderLine(p1, State([], None), "foo");
    RunAliasLine(p2, [], c0, "f");
    RunAbbrLine(p3, [], c0.(alias := "f"), "foo ...");
  }

  /** The scan loop over the `foo` lines ends with `foo` still open. */
  lemma RunFoo(body: string)
    requires body == Spaces(4) + "foobar"
    ensures Run(FooLines(body)) == State([], Some(Snippet("foo", "foo ...", "f", [body, ""], 4)))
  {
    var c2 := NewSnippet("foo").(alias := "f", abbr := "foo ...");
    var c3 := c2.(body := [body], bodyMinIndent := 4);
    RunFooHead();
    RunFoobar(FooHead(), c2, body);
    RunEmptyLine(FooHead() + [body], [], c3);
    assert c3.(body := c3.body + [""]) == Snippet("foo", "foo ...", "f", [body, ""], 4);
  }

  /** A comment line changes nothing. */
  lemma RunCommentLine(p: seq<string>, st: State, text: string)
    requires Run(p) == st && text != [] && !IsSpace(text[|text| - 1])
    ensures Run(p + ["#" + text]) == st
  {
    var l := "#" + text;
    RunSnoc(p, l);
    assert Trimmed(l) by { assert l[0] == '#' && l[|l| - 1] == text[|text| - 1]; }
    assert HasPrefix(l, "#") by { assert l[..1] == "#"; }
  }

  /** A tab in front of a word is white space but no indentation. */
  lemma TabbedWord(raw: string, w: string)
    requires w != [] && Trimmed(w) && raw == "\t" + w
    ensures TrimSpace(raw) == w && LeadingSpaces(raw) == 0
  {
    assert raw[0] == '\t' && raw[1..] == w;
    assert TrimSpace(raw) == TrimSpace(raw[1..]);
  }

  /** A tab-indented body line pulls the margin down to 0. */
  lemma RunTabbedLine(p: seq<string>, res: seq<Snippet>, c: Snippet, raw: string, w: string)
    requires Run(p) == State(res, Some(c)) && c.bodyMinIndent > 0
    requires w != [] && Trimmed(w) && Classify(w) == Body && raw == "\t" + w
    ensures Run(p + [raw]) == State(res, Some(c.(body := c.body + [raw], bodyMinIndent := 0)))
  {
    RunSnoc(p, raw);
    TabbedWord(raw, w);
  }

  /** The three directive lines that open a snippet. */
  lemma RunOpen(p: seq<string>, st: State, name: string, a: string, text: string)
    requires Run(p) == st
    requires name != [] && NoSpace(name) && a != [] && NoSpace(a) && text != [] && Trimmed(text)
    ensures Run(p + ["snippet " + name] + ["alias " + a] + ["abbr " + text]) ==
      State(Add(st.res, st.current), Some(NewSnippet(name).(alias := a, abbr := text)))
  {
    var p1 := p + ["snippet " + name];
    var p2 := p1 + ["alias " + a];
    RunHeaderLine(p, st, name);
    RunAliasLine(p1, Add(st.res, st.current), NewSnippet(name), a);
    RunAbbrLine(p2, Add(st.res, st.current), NewSnippet(name).(alias := a), text);
  }

  /** The `multiline` directives commit `foo` and open `multiline`. */
  lemma RunMultilineOpen(p: seq<string>, foo: Snippet)
    requires Run(p) == State([], Some(foo)) && foo.body != []
    ensures Run(p + ["snippet " + "multiline"] + ["alias " + "m"] + ["abbr " + "multiline ..."]) ==
      State([foo], Some(NewSnippet("multiline").(alias := "m", abbr := "multiline ...")))
  {
    MultilineDirectives();
    RunOpen(p, State([], Some(foo)), "multiline", "m", "multiline ...");
    assert Add([], Some(foo)) == [foo];
  }

  /** The directive words of `multiline` are well formed. */
  lemma MultilineDirectives()
    ensures NoSpace("multiline") && NoSpace("m") && Trimmed("multiline ...")
  {
  }

  /** `bar` and `fuzzbuzz` are ordinary body texts. */
  lemma BarFuzzbuzzAreBody()
    ensures Trimmed("bar") && Classify("bar") == Body
    ensures Trimmed("fuzzbuzz") && Classify("fuzzbuzz") == Body
  {
  }

  /** `bar` at 4 spaces fixes the margin of a fresh snippet at 4. */
  lemma RunBarLine(p: seq<string>, res: seq<Snippet>, c: Snippet, bar: string)
    requires Run(p) == State(res, Some(c)) && c.body == [] && c.bodyMinIndent == MaxInt64
    requires bar == Spaces(4) + "bar"
    ensures Run(p + [bar]) == State(res, Some(c.(body := [bar], bodyMinIndent := 4)))
  {
    BarFuzzbuzzAreBody();
    RunIndented(p, res, c, bar, 4, "bar");
    assert c.body + [bar] == [bar];
  }

  /** The body of `multiline` in the parse example: `bar` at 4 spaces, an
      empty line, `fuzzbuzz` behind a tab, two empty lines. */
  lemma RunMultilineBody(p: seq<string>, res: seq<Snippet>, c: Snippet, bar: string, tab: string)
    requires Run(p) == State(res, Some(c)) && c.body == [] && c.bodyMinIndent == MaxInt64
    requires bar == Spaces(4) + "bar" && tab == "\t" + "fuzzbuzz"
    ensures Run(p + [bar] + ["", tab] + ["", ""]) ==
      State(res, Some(c.(body := [bar, "", tab, "", ""], bodyMinIndent := 0)))
  {
    var c1 := c.(body := [bar], bodyMinIndent := 4);
    var c2 := c1.(body := c1.body + ["", tab], bodyMinIndent := 0);
    RunBarLine(p, res, c, bar);
    RunBlankTab(p + [bar], res, c1, tab);
    RunTwoBlanks(p + [bar] + ["", tab], res, c2);
    assert c2.body + ["", ""] == [bar, "", tab, "", ""];
  }

  /** An empty line, then `fuzzbuzz` behind a tab. */
  lemma RunBlankTab(p: seq<string>, res: seq<Snippet>, c: Snippet, tab: string)
    requires Run(p) == State(res, Some(c)) && c.bodyMinIndent > 0 && tab == "\t" + "fuzzbuzz"
    ensures Run(p + ["", tab]) == State(res, Some(c.(body := c.body + ["", tab], bodyMinIndent := 0)))
  {
    BarFuzzbuzzAreBody();
    RunEmptyLine(p, res, c);
    RunTabbedLine(p + [""], res, c.(body := c.body + [""]), tab, "fuzzbuzz");
    assert c.body + [""] + [tab] == c.body + ["", tab];
    assert p + [""] + [tab] == p + ["", tab];
  }

  /** Two empty lines. */
  lemma RunTwoBlanks(p: seq<string>, res: seq<Snippet>, c: Snippet)
    requires Run(p) == State(res, Some(c))
    ensures Run(p + ["", ""]) == State(res, Some(c.(body := c.body + ["", ""])))
  {
    RunEmptyLine(p, res, c);
    RunEmptyLine(p + [""], res, c.(body := c.body + [""]));
    assert c.body + [""] + [""] == c.body + ["", ""];
    assert p + [""] + [""] == p + ["", ""];
  }

  /** The body of `multiline` in the rendering example: `bar` at 4 spaces,
      then `fuzzbuzz` at 8. */
  lemma RunDeeperBody(p: seq<string>, res: seq<Snippet>, c: Snippet, bar: string, fuzz: string)
    requires Run(p) == State(res, Some(c)) && c.body == [] && c.bodyMinIndent == MaxInt64
    requires bar == Spaces(4) + "bar" && fuzz == Spaces(8) + "fuzzbuzz"
    ensures Run(p + [bar] + [fuzz]) == State(res, Some(c.(body := [bar, fuzz], bodyMinIndent := 4)))
  {
    var c1 := c.(body := [bar], bodyMinIndent := 4);
    BarFuzzbuzzAreBody();
    RunBarLine(p, res, c, bar);
    RunIndented(p + [bar], res, c1, fuzz, 8, "fuzzbuzz");
    assert c1.body + [fuzz] == [bar, fuzz];
  }

  /** Without a read error, `parse` commits whatever the scan loop left open. */
  lemma ParseOfRun(lines: seq<string>, st: State)
    requires Run(lines) == st
    ensures Parse(Input(lines, None)) == Success(Add(st.res, st.current))
  {
  }

  /** The scan loop over the parse example, built up line by line. */
  lemma RunExample(foobar: string, bar: string, tab: string, built: seq<string>)
    requires foobar == Spaces(4) + "foobar" && bar == Spaces(4) + "bar" && tab == "\t" + "fuzzbuzz"
    requires built == FooLines(foobar) + ["#" + " comment"] + ["snippet " + "multiline"] + ["alias " + "m"]
                       + ["abbr " + "multiline ..."] + [bar] + ["", tab] + ["", ""]
    ensures Run(built) == State([Snippet("foo", "foo ...", "f", [foobar, ""], 4)],
                                Some(Snippet("multiline", "multiline ...", "m", [bar, "", tab, "", ""], 0)))
  {
    var foo := Snippet("foo", "foo ...", "f", [foobar, ""], 4);
    var p6 := FooLines(foobar);
    var p7 := p6 + ["#" + " comment"];
    var p10 := p7 + ["snippet " + "multiline"] + ["alias " + "m"] + ["abbr " + "multiline ..."];
    RunFoo(foobar);
    RunCommentLine(p6, State([], Some(foo)), " comment");
    RunMultilineOpen(p7, foo);
    RunMultilineBody(p10, [foo], NewSnippet("multiline").(alias := "m", abbr := "multiline ..."), bar, tab);
  }

  /** The parse example in full: `foo` is committed by the second header,
      `multiline` at the end of input; the comment is dropped, and the
      tab-indented line brings the margin of `multiline` down to 0. */
  lemma ParseFoo(lines: seq<string>)
    requires lines == ["", "snippet foo", "alias f", "abbr foo ...", "    foobar", "", "# comment",
                       "snippet multiline", "alias m", "abbr multiline ...", "    bar", "", "\tfuzzbuzz", "", ""]
    ensures Parse(Input(lines, None)) == Success([
      Snippet("foo", "foo ...", "f", ["    foobar", ""], 4),
      Snippet("multiline", "multiline ...", "m", ["    bar", "", "\tfuzzbuzz", "", ""], 0)])
  {
    var foobar :| foobar == Spaces(4) + "foobar";
    var bar :| bar == Spaces(4) + "bar";
    var tab :| tab == "\t" + "fuzzbuzz";
    var built := FooLines(foobar) + ["#" + " comment"] + ["snippet " + "multiline"] + ["alias " + "m"]
                 + ["abbr " + "multiline ..."] + [bar] + ["", tab] + ["", ""];
    ExampleLines(lines, foobar, bar, tab, built);
    ParseExample(foobar, bar, tab, built);
  }

  /** `parse` of the parse example, with its body lines held in variables. */
  lemma ParseExample(foobar: string, bar: string, tab: string, built: seq<string>)
    requires foobar == Spaces(4) + "foobar" && bar == Spaces(4) + "bar" && tab == "\t" + "fuzzbuzz"
    requires built == FooLines(foobar) + ["#" + " comment"] + ["snippet " + "multiline"] + ["alias " + "m"]
                       + ["abbr " + "multiline ..."] + [bar] + ["", tab] + ["", ""]
    ensures Parse(Input(built, None)) == Success([
      Snippet("foo", "foo ...", "f", [foobar, ""], 4),
      Snippet("multiline", "multiline ...", "m", [bar, "", tab, "", ""], 0)])
  {
    var foo := Snippet("foo", "foo ...", "f", [foobar, ""], 4);
    var multi := Snippet("multiline", "multiline ...", "m", [bar, "", tab, "", ""], 0);
    RunExample(foobar, bar, tab, built);
    ParseOfRun(built, State([foo], Some(multi)));
    assert Add([foo], Some(multi)) == [foo, multi];
  }

  /** The lines of the parse example, as built up step by step. */
  lemma ExampleLines(lines: seq<string>, foobar: string, bar: string, tab: string, built: seq<string>)
    requires lines == ["", "snippet foo", "alias f", "abbr foo ...", "    foobar", "", "# comment",
                       "snippet multiline", "alias m", "abbr multiline ...", "    bar", "", "\tfuzzbuzz", "", ""]
    requires foobar == Spaces(4) + "foobar" && bar == Spaces(4) + "bar" && tab == "\t" + "fuzzbuzz"
    requires built == FooLines(foobar) + ["#" + " comment"] + ["snippet " + "multiline"] + ["alias " + "m"]
                       + ["abbr " + "multiline ..."] + [bar] + ["", tab] + ["", ""]
    ensures lines == built
    ensures foobar == "    foobar" && bar == "    bar" && tab == "\tfuzzbuzz"
  {
    assert "    foobar" == foobar && "    bar" == bar && "\tfuzzbuzz" == tab;
    assert "snippet foo" == "snippet " + "foo" && "alias f" == "alias " + "f";
    assert "abbr foo ..." == "abbr " + "foo ..." && "# comment" == "#" + " comment";
    assert "snippet multiline" == "snippet " + "multiline" && "alias m" == "alias " + "m";
    assert "abbr multiline ..." == "abbr " + "multiline ...";
  }

  /** The scan loop over the rendering example, built up line by line. */
  lemma RunGiven(foobar: string, bar: string, fuzz: string, built: seq<string>)
    requires foobar == Spaces(4) + "foobar" && bar == Spaces(4) + "bar" && fuzz == Spaces(8) + "fuzzbuzz"
    requires built == FooLines(foobar) + ["snippet " + "multiline"] + ["alias " + "m"]
                       + ["abbr " + "multiline ..."] + [bar] + [fuzz]
    ensures Run(built) == State([Snippet("foo", "foo ...", "f", [foobar, ""], 4)],
                                Some(Snippet("multiline", "multiline ...", "m", [bar, fuzz], 4)))
  {
    var foo := Snippet("foo", "foo ...", "f", [foobar, ""], 4);
    var p6 := FooLines(foobar);
    var p9 := p6 + ["snippet " + "multiline"] + ["alias " + "m"] + ["abbr " + "multiline ..."];
    RunFoo(foobar);
    RunMultilineOpen(p6, foo);
    RunDeeperBody(p9, [foo], NewSnippet("multiline").(alias := "m", abbr := "multiline ..."), bar, fuzz);
  }

  /** The rendering example parses into `foo` and a `multiline` whose second
      body line keeps 4 spaces beyond the margin. */
  lemma ParseGiven(lines: seq<string>)
    requires lines == ["", "snippet foo", "alias f", "abbr foo ...", "    foobar", "",
                       "snippet multiline", "alias m", "abbr multiline ...", "    bar", "        fuzzbuzz"]
    ensures Parse(Input(lines, None)) == Success([
      Snippet("foo", "foo ...", "f", ["    foobar", ""], 4),
      Snippet("multiline", "multiline ...", "m", ["    bar", "        fuzzbuzz"], 4)])
  {
    var foobar :| foobar == Spaces(4) + "foobar";
    var bar :| bar == Spaces(4) + "bar";
    var fuzz :| fuzz == Spaces(8) + "fuzzbuzz";
    var built := FooLines(foobar) + ["snippet " + "multiline"] + ["alias " + "m"]
                 + ["abbr " + "multiline ..."] + [bar] + [fuzz];
    GivenLines(lines, foobar, bar, fuzz, built);
    ParseGivenBuilt(foobar, bar, fuzz, built);
  }

  /** `parse` of the rendering example, with its body lines held in variables. */
  lemma ParseGivenBuilt(foobar: string, bar: string, fuzz: string, built: seq<string>)
    requires foobar == Spaces(4) + "foobar" && bar == Spaces(4) + "bar" && fuzz == Spaces(8) + "fuzzbuzz"
    requires built == FooLines(foobar) + ["snippet " + "multiline"] + ["alias " + "m"]
                       + ["abbr " + "multiline ..."] + [bar] + [fuzz]
    ensures Parse(Input(built, None)) == Success([
      Snippet("foo", "foo ...", "f", [foobar, ""], 4),
      Snippet("multiline", "multiline ...", "m", [bar, fuzz], 4)])
  {
    var foo := Snippet("foo", "foo ...", "f", [foobar, ""], 4);
    var multi := Snippet("multiline", "multiline ...", "m", [bar, fuzz], 4);
    RunGiven(foobar, bar, fuzz, built);
    ParseOfRun(built, State([foo], Some(multi)));
    assert Add([foo], Some(multi)) == [foo, multi];
  }

  /** The lines of the rendering example, as built up step by step. */
  lemma GivenLines(lines: seq<string>, foobar: string, bar: string, fuzz: string, built: seq<string>)
    requires lines == ["", "snippet foo", "alias f", "abbr foo ...", "    foobar", "",
                       "snippet multiline", "alias m", "abbr multiline ...", "    bar", "        fuzzbuzz"]
    requires foobar == Spaces(4) + "foobar" && bar == Spaces(4) + "bar" && fuzz == Spaces(8) + "fuzzbuzz"
    requires built == FooLines(foobar) + ["snippet " + "multiline"] + ["alias " + "m"]
                       + ["abbr " + "multiline ..."] + [bar] + [fuzz]
    ensures lines == built
    ensures foobar == "    foobar" && bar == "    bar" && fuzz == "        fuzzbuzz"
  {
    assert "    foobar" == foobar && "    bar" == bar && "        fuzzbuzz" == fuzz;
    assert "snippet foo" == "snippet " + "foo" && "alias f" == "alias " + "f";
    assert "abbr foo ..." == "abbr " + "foo ...";
    assert "snippet multiline" == "snippet " + "multiline" && "alias m" == "alias " + "m";
    assert "abbr multiline ..." == "abbr " + "multiline ...";
  }

  /** `${}` has no index. */
  lemma ParseVarEmptyBraces()
    ensures ParseVar("${}") == None
  {
    assert Unwrap("${}") == [] by {
      assert "${}" == "$" + "{}";
      TrimPrefixOf("$", "{}");
      assert Trim("{}", "{}") == [];
    }
    assert Split([], ":") == [[]];
    ParseVarSingle("${}", []);
  }

  /** `${a}` has no index. */
  lemma ParseVarLetter()
    ensures ParseVar("${a}") == None
  {
    assert "${" + "a" + "}" == "${a}";
    ParseBraced("a");
    ParseIntNonDigit('a');
  }

  /** In `foo ${a} $b ${}` the pattern matches `${a}` and `${}`. */
  lemma MalformedMatches()
    ensures Matches(15, PatternAt("foo ${a} $b ${}"), 0, [Span(4, 8), Span(12, 15)])
  {
    var t := "foo ${a} $b ${}";
    var at := PatternAt(t);
    assert CloseBrace(t, 7) == Some(7);
    assert CloseBrace(t, 6) == Some(7);
    assert at(4) == TokenAt(t, 4) == Some(4);
    assert CloseBrace(t, 14) == Some(14);
    assert at(12) == TokenAt(t, 12) == Some(3);
  }

  /** ... and nothing else: `$b` is not followed by a digit. */
  lemma MalformedNoneMissed()
    ensures NoneMissed(15, PatternAt("foo ${a} $b ${}"), 0, [Span(4, 8), Span(12, 15)])
  {
    var t := "foo ${a} $b ${}";
    var sp := [Span(4, 8), Span(12, 15)];
    var at := PatternAt(t);
    forall p | 0 <= p < |t| && p != 4 && p != 9 && p != 12 ensures at(p).None? {
      assert t[p] != '$';
    }
    assert at(9) == TokenAt(t, 9) == None by {
      assert t[10] == 'b';
    }
    assert sp[0].start <= 4 < sp[0].end && sp[1].start <= 12 < sp[1].end;
    assert !Uncovered(sp, 4) && !Uncovered(sp, 12);
  }

  lemma LeftmostMalformed(t: string)
    requires t == "foo ${a} $b ${}"
    ensures Leftmost(|t|, PatternAt(t), 0, [Span(4, 8), Span(12, 15)])
  {
    assert |t| == 15;
    MalformedMatches();
    MalformedNoneMissed();
  }

  lemma TextsMalformed(t: string)
    requires t == "foo ${a} $b ${}"
    ensures Texts(t, [Span(4, 8), Span(12, 15)]) == ["${a}", "${}"]
  {
    assert t[4..8] == "${a}" && t[12..15] == "${}";
  }

  /** The tokens of `foo ${a} $b ${}`. */
  lemma TokensMalformed(t: string)
    requires t == "foo ${a} $b ${}"
    ensures Tokens(t) == ["${a}", "${}"]
  {
    LeftmostMalformed(t);
    TokensOf(t, [Span(4, 8), Span(12, 15)]);
    TextsMalformed(t);
  }

  /** Neither token of `foo ${a} $b ${}` has an index. */
  lemma MalformedTokens(toks: seq<string>)
    requires toks == ["${a}", "${}"]
    ensures forall k :: 0 <= k < |toks| ==> toks[k] != [] && ParseVar(toks[k]).None?
  {
    forall k | 0 <= k < |toks| ensures toks[k] != [] && ParseVar(toks[k]).None? {
      if k == 0 {
        ParseVarLetter();
      } else {
        ParseVarEmptyBraces();
      }
    }
  }

  lemma ExpandMalformedText(t: string, args: seq<string>)
    requires t == "foo ${a} $b ${}"
    ensures Expandable(Tokens(t)) && ExpandVars(t, args) == t
  {
    TokensMalformed(t);
    MalformedTokens(Tokens(t));
    MalformedKept(t, Tokens(t), args);
  }

  /** `foo ${a} $b ${}` comes back unchanged: the braced tokens are kept
      verbatim and `$b` is not a token. */
  lemma ExpandVarsMalformed()
    ensures Expandable(Tokens("foo ${a} $b ${}"))
    ensures ExpandVars("foo ${a} $b ${}", ["foo", "bar"]) == "foo ${a} $b ${}"
  {
    ExpandMalformedText("foo ${a} $b ${}", ["foo", "bar"]);
  }

  /** The `foo` snippet renders as its body line without margin, then the
      empty line. */
  lemma TextFoo(l: string)
    requires l == Spaces(4) + "foobar"
    ensures Sliceable(Snippet("foo", "foo ...", "f", [l, ""], 4))
    ensures Text(Snippet("foo", "foo ...", "f", [l, ""], 4)) == "foobar\n"
  {
    var s := Snippet("foo", "foo ...", "f", [l, ""], 4);
    assert Trimmed("foobar");
    StripWholeMargin(l, "foobar");
    assert Blank("");
    assert Sliceable(s);
    TextOfTwoLines(s);
    assert "foobar" + "\n" + "" == "foobar\n";
  }

  /** A line indented exactly by the margin loses all its indentation. */
  lemma StripWholeMargin(l: string, w: string)
    requires w != [] && Trimmed(w) && l == Spaces(4) + w
    ensures !Blank(l) && 4 <= |l| && StripLine(l, 4) == w
  {
    StripIndented(l, 4, 4, w);
    assert Spaces(0) + w == w;
  }

  lemma StripBar(l: string)
    requires l == Spaces(4) + "bar"
    ensures !Blank(l) && 4 <= |l| && StripLine(l, 4) == "bar"
  {
    assert Trimmed("bar");
    StripWholeMargin(l, "bar");
  }

  lemma StripFuzzbuzz(l: string)
    requires l == Spaces(8) + "fuzzbuzz"
    ensures !Blank(l) && 4 <= |l| && StripLine(l, 4) == "    fuzzbuzz"
  {
    var w :| w == "fuzzbuzz";
    BarFuzzbuzzAreBody();
    StripIndented(l, 4, 8, w);
    FourSpacesFuzzbuzz(w);
  }

  lemma FourSpacesFuzzbuzz(w: string)
    requires w == "fuzzbuzz"
    ensures Spaces(4) + w == "    fuzzbuzz"
  {
  }

  /** Lines indented deeper than the margin keep the excess. */
  lemma TextMultiline(a: string, b: string)
    requires a == Spaces(4) + "bar" && b == Spaces(8) + "fuzzbuzz"
    ensures Sliceable(Snippet("multiline", "multiline ...", "m", [a, b], 4))
    ensures Text(Snippet("multiline", "multiline ...", "m", [a, b], 4)) == "bar\n    fuzzbuzz"
  {
    var s := Snippet("multiline", "multiline ...", "m", [a, b], 4);
    StripBar(a);
    StripFuzzbuzz(b);
    TwoLongLines(s, "bar", "    fuzzbuzz");
    assert "bar" + "\n" + "    fuzzbuzz" == "bar\n    fuzzbuzz";
  }

  /** Two non-blank lines, both long enough for the margin. */
  lemma TwoLongLines(s: Snippet, x: string, y: string)
    requires |s.body| == 2
    requires !Blank(s.body[0]) && s.bodyMinIndent <= |s.body[0]|
    requires !Blank(s.body[1]) && s.bodyMinIndent <= |s.body[1]|
    requires StripLine(s.body[0], s.bodyMinIndent) == x && StripLine(s.body[1], s.bodyMinIndent) == y
    ensures Sliceable(s) && Text(s) == x + "\n" + y
  {
    TextOfTwoLines(s);
  }

  /** The body lines of the rendering example are spaces before a word. */
  lemma GivenBodies(foobar: string, bar: string, fuzz: string)
    requires foobar == "    foobar" && bar == "    bar" && fuzz == "        fuzzbuzz"
    ensures foobar == Spaces(4) + "foobar" && bar == Spaces(4) + "bar" && fuzz == Spaces(8) + "fuzzbuzz"
  {
  }

  /** `String()` of the two snippets of the rendering example. */
  lemma GivenTexts(r: seq<Snippet>)
    requires r == [Snippet("foo", "foo ...", "f", ["    foobar", ""], 4),
                   Snippet("multiline", "multiline ...", "m", ["    bar", "        fuzzbuzz"], 4)]
    ensures Sliceable(r[0]) && Text(r[0]) == "foobar\n"
    ensures Sliceable(r[1]) && Text(r[1]) == "bar\n    fuzzbuzz"
  {
    var foobar :| foobar == "    foobar";
    var bar :| bar == "    bar";
    var fuzz :| fuzz == "        fuzzbuzz";
    GivenBodies(foobar, bar, fuzz);
    TextFoo(foobar);
    TextMultiline(bar, fuzz);
  }

  /** The rendering example: `String()` of the two snippets that `parse`
      returns for the test's input. */
  lemma TextExamples(lines: seq<string>)
    requires lines == ["", "snippet foo", "alias f", "abbr foo ...", "    foobar", "",
                       "snippet multiline", "alias m", "abbr multiline ...", "    bar", "        fuzzbuzz"]
    ensures var r := Parse(Input(lines, None));
      && r.Success? && |r.value| == 2
      && Sliceable(r.value[0]) && Text(r.value[0]) == "foobar\n"
      && Sliceable(r.value[1]) && Text(r.value[1]) == "bar\n    fuzzbuzz"
  {
    ParseGiven(lines);
    GivenTexts(Parse(Input(lines, None)).value);
  }

  /** The list of the lookup example: names `foo`, `bar`, `bar`, `buzz`,
      `fuzz`, two of them with alias `b`. */
  function FindList(): seq<Snippet> {
    [ Snippet("foo", "", "", [], 0),
      Snippet("bar", "first bar", "", [], 0),
      Snippet("bar", "", "b", [], 0),
      Snippet("buzz", "", "b", [], 0),
      Snippet("fuzz", "", "", [], 0) ]
  }

  /** Lookup finds the first snippet of a name, and nothing for an unknown
      name or for a name used only as an alias. */
  lemma FindExamples()
    ensures Find(FindList(), "buzz") == Some(3)
    ensures Find(FindList(), "bar") == Some(1)
    ensures Find(FindList(), "not_existent") == None
    ensures Find(FindList(), "b") == None
  {
    var l := FindList();
    assert l[0].name == "foo" && l[1].name == "bar" && l[2].name == "bar";
    assert l[3].name == "buzz" && l[4].name == "fuzz";
    assert "foo" != "buzz" && "bar" != "buzz";
    assert forall k :: 0 <= k < |l| ==> l[k].name != "not_existent";
    assert forall k :: 0 <= k < |l| ==> l[k].name != "b";
  }

  /** Empty input gives an empty list. */
  lemma ParseEmpty()
    ensures Parse(Input([], None)) == Success([])
  {
  }
}
