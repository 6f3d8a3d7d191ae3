/**
 The snippet-file parser of snippet/snippet.go. Each line is trimmed and
 classified; a single open snippet collects directives and body lines, and it
 is committed through `list.add` when the next header starts and at end of
 input. `Sectioned` describes the same result without the open slot: every
 header line opens a section that runs to the next header.
 */
module Parser {
  import opened Wrappers
  import opened GoStrings
  import opened Strconv
  import opened Record
  import opened Lists
  import opened Vars

  /** What a trimmed line is, in the order the parser tests it. */
  datatype LineKind = Comment | Header | Abbr | Alias | Body

  function Classify(line: string): LineKind {
    if HasPrefix(line, "#") then Comment
    else if HasPrefix(line, "snippet ") then Header
    else if HasPrefix(line, "abbr ") then Abbr
    else if HasPrefix(line, "alias ") then Alias
    else Body
  }

  /** The kind of a raw line: classification looks at the trimmed text. */
  function KindOf(raw: string): LineKind {
    Classify(TrimSpace(raw))
  }

  predicate IsHeader(raw: string) {
    KindOf(raw) == Header
  }

  /** The four prefixes exclude each other, so the order of the tests only
      matters for lines that match none of them: a line is a body line
      exactly when it has none of them, and only a line starting with `#`,
      `a` or `s` can be anything else. */
  lemma ClassifyByPrefix(line: string)
    ensures Classify(line) == Comment <==> HasPrefix(line, "#")
    ensures Classify(line) == Header <==> HasPrefix(line, "snippet ")
    ensures Classify(line) == Abbr <==> HasPrefix(line, "abbr ")
    ensures Classify(line) == Alias <==> HasPrefix(line, "alias ")
    ensures Classify(line) == Body <==>
      !HasPrefix(line, "#") && !HasPrefix(line, "snippet ") && !HasPrefix(line, "abbr ") && !HasPrefix(line, "alias ")
    ensures Classify(line) != Body ==> line != [] && line[0] in "#as"
  {
    if HasPrefix(line, "snippet ") || HasPrefix(line, "abbr ") || HasPrefix(line, "alias ") {
      assert line[0] != '#';
    }
    if HasPrefix(line, "abbr ") || HasPrefix(line, "alias ") {
      assert line[0] == 'a';
    }
    if HasPrefix(line, "alias ") {
      assert line[1] == 'l';
    }
  }

  /** The directive keywords are single fields. */
  lemma Keywords()
    ensures NoSpace("snippet") && NoSpace("abbr") && NoSpace("alias")
  {
  }

  /** A header line always has a name field after `snippet`, so the
      parser's `len(tokens) < 2` branch is never taken; a line that trims to
      a bare `snippet` is not a header but a body line. */
  lemma HeaderLine(raw: string)
    ensures IsHeader(raw) ==>
      var f := Fields(TrimSpace(raw));
      |f| >= 2 && f[0] == "snippet"
    ensures TrimSpace(raw) == "snippet" ==> KindOf(raw) == Body
  {
    var line := TrimSpace(raw);
    if IsHeader(raw) {
      KeywordLine(line, "snippet");
    }
    if line == "snippet" {
      BareKeyword(line);
    }
  }

  /** The keyword alone is no directive: the header test wants a space after
      it. */
  lemma BareKeyword(line: string)
    requires line == "snippet"
    ensures Classify(line) == Body
  {
    assert |line| == 7 && line[0] == 's';
    assert !HasPrefix(line, "#") by { assert line[..1][0] == 's'; }
    assert !HasPrefix(line, "abbr ") by { assert line[..5][0] == 's'; }
    assert !HasPrefix(line, "alias ") by { assert line[..6][0] == 's'; }
  }

  /** The parser's state: the committed snippets and the open one. */
  datatype State = State(res: seq<Snippet>, current: Option<Snippet>)

  /** A freshly opened snippet: no directives, no body, the margin at the
      `MaxInt64` sentinel. */
  function NewSnippet(name: string): Snippet {
    Snippet(name, "", "", [], MaxInt64)
  }

  /** One iteration of the scan loop in `parse`. */
  function Step(st: State, raw: string): State {
    var line := TrimSpace(raw);
    match Classify(line)
    case Comment => st
    case Header =>
      var res := Add(st.res, st.current);
      var tokens := Fields(line);
      if |tokens| < 2 then State(res, None)
      else State(res, Some(NewSnippet(tokens[1])))
    case Abbr =>
      if st.current.None? then st
      else
        KeywordLine(line, "abbr");
        var c := st.current.value;
        State(st.res, Some(c.(abbr := TrimSpace(TrimPrefix(line, Fields(line)[0])))))
    case Alias =>
      if st.current.None? then st
      else
        var c := st.current.value;
        State(st.res, Some(c.(alias := Get(Fields(line), 1))))
    case Body =>
      if st.current.None? then st
      else
        var c := st.current.value;
        var ind := LeadingSpaces(raw);
        var m := if ind < c.bodyMinIndent && line != "" then ind else c.bodyMinIndent;
        State(st.res, Some(c.(body := c.body + [raw], bodyMinIndent := m)))
  }

  /** Committed snippets are never touched: only a header commits, at most
      one snippet, and one with body lines; outside a snippet every other
      line is ignored. */
  lemma StepCommits(st: State, raw: string)
    ensures var r := Step(st, raw);
      && |st.res| <= |r.res| <= |st.res| + 1 && r.res[..|st.res|] == st.res
      && (|r.res| == |st.res| + 1 ==> KindOf(raw) == Header && r.res[|st.res|].body != [])
      && (KindOf(raw) != Header && st.current.None? ==> r == st)
  {
  }

  /** A `snippet <name>` line commits the open snippet and opens a new one. */
  lemma StepHeaderNamed(st: State, name: string)
    requires name != [] && NoSpace(name)
    ensures Step(st, "snippet " + name) == State(Add(st.res, st.current), Some(NewSnippet(name)))
  {
    var l := "snippet " + name;
    assert Trimmed(l) && Classify(l) == Header by {
      assert l[0] == 's' && l[|l| - 1] == name[|name| - 1];
      assert l[..8] == "snippet ";
      ClassifyByPrefix(l);
    }
    assert Fields(l) == ["snippet", name] by {
      assert l == "snippet" + " " + name;
      Keywords();
      FieldsTwo("snippet", name);
    }
  }

  /** An `alias <a>` line inside a snippet sets its alias. */
  lemma StepAliasNamed(res: seq<Snippet>, c: Snippet, a: string)
    requires a != [] && NoSpace(a)
    ensures Step(State(res, Some(c)), "alias " + a) == State(res, Some(c.(alias := a)))
  {
    var l := "alias " + a;
    assert Trimmed(l) && Classify(l) == Alias by {
      assert l[0] == 'a' && l[|l| - 1] == a[|a| - 1];
      assert l[..6] == "alias ";
      ClassifyByPrefix(l);
    }
    assert Fields(l) == ["alias", a] by {
      assert l == "alias" + " " + a;
      Keywords();
      FieldsTwo("alias", a);
    }
  }

  /** An `abbr <text>` line inside a snippet sets its abbreviation to the
      whole remaining text. */
  lemma StepAbbrText(res: seq<Snippet>, c: Snippet, text: string)
    requires text != [] && Trimmed(text)
    ensures Step(State(res, Some(c)), "abbr " + text) == State(res, Some(c.(abbr := text)))
  {
    var l := "abbr " + text;
    assert Trimmed(l) && Classify(l) == Abbr by {
      assert l[0] == 'a' && l[|l| - 1] == text[|text| - 1];
      assert l[..5] == "abbr ";
      ClassifyByPrefix(l);
    }
    assert TrimSpace(TrimPrefix(l, Fields(l)[0])) == text by {
      Keywords();
      KeywordLine(l, "abbr");
      assert l == "abbr" + (" " + text);
      TrimPrefixOf("abbr", " " + text);
      assert (" " + text)[1..] == text;
    }
  }

  /** An indented body line is appended verbatim and may lower the margin to
      its indentation. */
  lemma StepIndented(res: seq<Snippet>, c: Snippet, n: nat, w: string)
    requires w != [] && Trimmed(w) && Classify(w) == Body
    ensures Step(State(res, Some(c)), Spaces(n) + w) ==
      State(res, Some(c.(body := c.body + [Spaces(n) + w],
                         bodyMinIndent := if n < c.bodyMinIndent then n else c.bodyMinIndent)))
  {
    IndentedWord(n, w);
  }

  /** An empty line outside a snippet is ignored; inside one it is an empty
      body line that leaves the margin alone. */
  lemma StepEmpty(st: State)
    ensures Step(st, "") == if st.current.None? then st else
      State(st.res, Some(st.current.value.(body := st.current.value.body + [""])))
  {
    assert Trimmed("");
  }

  /** The scan loop over all lines, from the empty state. */
  function Run(lines: seq<string>): State
    decreases |lines|
  {
    if lines == [] then State([], None)
    else Step(Run(lines[..|lines| - 1]), lines[|lines| - 1])
  }

  /** The scan loop commits at most one snippet per header, each with body
      lines, and lines before the first header leave the state empty. */
  lemma {:induction false} RunCommits(lines: seq<string>)
    ensures |Run(lines).res| <= HeaderCount(lines)
    ensures forall k :: 0 <= k < |Run(lines).res| ==> Run(lines).res[k].body != []
    ensures (forall k :: 0 <= k < |lines| ==> !IsHeader(lines[k])) ==> Run(lines) == State([], None)
    decreases |lines|
  {
    if lines != [] {
      var init := lines[..|lines| - 1];
      var prev := Run(init);
      var r := Step(prev, lines[|lines| - 1]);
      RunCommits(init);
      StepCommits(prev, lines[|lines| - 1]);
      assert Run(lines) == r;
      assert forall k :: 0 <= k < |prev.res| ==> r.res[k] == prev.res[k];
      assert (forall k :: 0 <= k < |lines| ==> !IsHeader(lines[k])) ==>
        forall k :: 0 <= k < |init| ==> !IsHeader(init[k]);
    }
  }

  /** The scan loop processes the last line after all the others. */
  lemma RunSnoc(lines: seq<string>, l: string)
    ensures Run(lines + [l]) == Step(Run(lines), l)
  {
    assert (lines + [l])[..|lines|] == lines;
  }

  /** What `bufio.Scanner` delivers: the lines it read and the error, if any,
      that `scanner.Err()` reports once the loop stops. */
  datatype Input = Input(lines: seq<string>, err: Option<IoError>)

  /** `parse`. A read error discards everything; otherwise the result is the
      section-by-section reading of the lines, every snippet in it has a body
      and a margin that `String()` can cut. */
  function Parse(src: Input): (r: Result<seq<Snippet>, IoError>)
    ensures src.err.Some? <==> r.Failure?
    ensures src.err.Some? ==> r.error == src.err.value
    ensures r.Success? ==> r.value == Sectioned(src.lines)
    ensures r.Success? ==> |r.value| <= HeaderCount(src.lines)
    ensures r.Success? ==> forall k :: 0 <= k < |r.value| ==>
      r.value[k].body != [] && Indented(r.value[k]) && Sliceable(r.value[k])
  {
    var st := Run(src.lines);
    var res := Add(st.res, st.current);
    RunIsSectioned(src.lines);
    SectionedCount(src.lines);
    if src.err.Some? then Failure(src.err.value) else Success(res)
  }

  // The section-based reading.

  /** The position of the last line of the given kind. */
  function LastOfKind(lines: seq<string>, kind: LineKind): (r: Option<nat>)
    ensures r.Some? ==> r.value < |lines| && KindOf(lines[r.value]) == kind
    ensures r.Some? ==> forall k :: r.value < k < |lines| ==> KindOf(lines[k]) != kind
    ensures r.None? <==> forall k :: 0 <= k < |lines| ==> KindOf(lines[k]) != kind
    decreases |lines|
  {
    if lines == [] then None
    else if KindOf(lines[|lines| - 1]) == kind then Some(|lines| - 1)
    else
      var init := lines[..|lines| - 1];
      assert forall k :: 0 <= k < |init| ==> init[k] == lines[k];
      LastOfKind(init, kind)
  }

  function HeaderCount(lines: seq<string>): nat
    decreases |lines|
  {
    if lines == [] then 0
    else HeaderCount(lines[..|lines| - 1]) + if IsHeader(lines[|lines| - 1]) then 1 else 0
  }

  /** The name a header line gives its snippet: the second field. */
  function HeaderName(raw: string): (r: string)
    requires IsHeader(raw)
    ensures r != [] && NoSpace(r)
  {
    KeywordLine(TrimSpace(raw), "snippet");
    Fields(TrimSpace(raw))[1]
  }

  /** The elements of `s` that `keep` accepts, in order. */
  function Filter<T>(s: seq<T>, keep: T -> bool): (r: seq<T>)
    ensures |r| <= |s|
    decreases |s|
  {
    if s == [] then []
    else
      var init := s[..|s| - 1];
      var last := s[|s| - 1];
      if keep(last) then Filter(init, keep) + [last] else Filter(init, keep)
  }

  lemma FilterSnoc<T>(s: seq<T>, x: T, keep: T -> bool)
    ensures Filter(s + [x], keep) == if keep(x) then Filter(s, keep) + [x] else Filter(s, keep)
  {
    var t := s + [x];
    assert t[..|t| - 1] == s;
  }

  /** Filtering keeps order across any split of the input. */
  lemma {:induction false} FilterAppend<T>(a: seq<T>, b: seq<T>, keep: T -> bool)
    ensures Filter(a + b, keep) == Filter(a, keep) + Filter(b, keep)
    decreases |b|
  {
    if b == [] {
      assert a + b == a;
    } else {
      var init := b[..|b| - 1];
      var x := b[|b| - 1];
      assert b == init + [x];
      assert a + b == (a + init) + [x];
      FilterAppend(a, init, keep);
      FilterSnoc(a + init, x, keep);
      FilterSnoc(init, x, keep);
    }
  }

  /** Exactly the accepted elements survive. */
  lemma {:induction false} FilterMembers<T>(s: seq<T>, keep: T -> bool, x: T)
    ensures x in Filter(s, keep) <==> x in s && keep(x)
    decreases |s|
  {
    if s != [] {
      var init := s[..|s| - 1];
      assert s == init + [s[|s| - 1]];
      FilterMembers(init, keep, x);
    }
  }

  predicate IsBodyLine(raw: string) {
    KindOf(raw) == Body
  }

  /** The lines of a section that belong to the body: raw and untrimmed, in
      order, without comment and directive lines. */
  function BodyOf(sect: seq<string>): seq<string> {
    Filter(sect, IsBodyLine)
  }

  /** A body holds exactly the section's body lines, blank ones included,
      and no comment or directive line. */
  lemma BodyOfMembers(sect: seq<string>, l: string)
    ensures l in BodyOf(sect) <==> l in sect && KindOf(l) == Body
  {
    FilterMembers(sect, IsBodyLine, l);
  }

  /** Body extraction keeps file order across any split of the section. */
  lemma BodyOfAppend(a: seq<string>, b: seq<string>)
    ensures BodyOf(a + b) == BodyOf(a) + BodyOf(b)
  {
    FilterAppend(a, b, IsBodyLine);
  }

  lemma BodyOfSnoc(s: seq<string>, l: string)
    ensures BodyOf(s + [l]) == if KindOf(l) == Body then BodyOf(s) + [l] else BodyOf(s)
  {
    FilterSnoc(s, l, IsBodyLine);
  }

  /** The value of an `abbr` directive: the line without its first field,
      trimmed. */
  function AbbrText(raw: string): string
    requires KindOf(raw) == Abbr
  {
    TrimSpace(TrimPrefix(TrimSpace(raw), "abbr"))
  }

  /** The value of an `alias` directive: its second field. */
  function AliasText(raw: string): string
    requires KindOf(raw) == Alias
  {
    KeywordLine(TrimSpace(raw), "alias");
    Fields(TrimSpace(raw))[1]
  }

  /** The last `abbr` directive of a section wins; none leaves it empty. */
  function AbbrOf(sect: seq<string>): string {
    match LastOfKind(sect, Abbr)
    case None => ""
    case Some(k) => AbbrText(sect[k])
  }

  /** The last `alias` directive of a section wins; none leaves it empty. */
  function AliasOf(sect: seq<string>): string {
    match LastOfKind(sect, Alias)
    case None => ""
    case Some(k) => AliasText(sect[k])
  }

  /** The least count of leading U+0020 over the non-blank lines, or the
      `MaxInt64` sentinel when there is none (or every count exceeds it). */
  function MinIndent(body: seq<string>): (r: int)
    ensures 0 <= r <= MaxInt64
    ensures forall k :: 0 <= k < |body| && !Blank(body[k]) ==> r <= LeadingSpaces(body[k])
    ensures r == MaxInt64 || exists k :: 0 <= k < |body| && !Blank(body[k]) && r == LeadingSpaces(body[k])
    ensures (forall k :: 0 <= k < |body| ==> Blank(body[k])) ==> r == MaxInt64
    decreases |body|
  {
    if body == [] then MaxInt64
    else
      var init := body[..|body| - 1];
      assert forall k :: 0 <= k < |init| ==> init[k] == body[k];
      var m := MinIndent(init);
      var last := body[|body| - 1];
      if !Blank(last) && LeadingSpaces(last) < m then LeadingSpaces(last) else m
  }

  /** The snippet a header and the lines of its section describe. */
  function Opened(header: string, sect: seq<string>): (r: Snippet)
    requires IsHeader(header)
    ensures Indented(r)
  {
    var body := BodyOf(sect);
    Snippet(HeaderName(header), AbbrOf(sect), AliasOf(sect), body, MinIndent(body))
  }

  /** The snippets of a file, section by section in header order, keeping
      those whose section has body lines. Lines before the first header
      belong to no snippet. */
  function Sectioned(lines: seq<string>): (r: seq<Snippet>)
    ensures Committed(r)
    decreases |lines|
  {
    match LastOfKind(lines, Header)
    case None => []
    case Some(h) =>
      var prev := Sectioned(lines[..h]);
      var s := Opened(lines[h], lines[h + 1..]);
      AddKeepsCommitted(prev, s);
      Add(prev, Some(s))
  }

  /** Every snippet has body lines and a margin its body respects. */
  predicate Committed(l: seq<Snippet>) {
    forall k :: 0 <= k < |l| ==> l[k].body != [] && Indented(l[k])
  }

  lemma AddKeepsCommitted(l: seq<Snippet>, s: Snippet)
    requires Committed(l) && Indented(s)
    ensures Committed(Add(l, Some(s)))
  {
    var r := Add(l, Some(s));
    forall k | 0 <= k < |r| ensures r[k].body != [] && Indented(r[k]) {
      if k < |l| {
        assert r[k] == r[..|l|][k];
      }
    }
  }

  /** The parser state after `lines` as the sections describe it: the
      sections before the last header are committed and that header's section
      is open. */
  function Expected(lines: seq<string>): State {
    match LastOfKind(lines, Header)
    case None => State([], None)
    case Some(h) => State(Sectioned(lines[..h]), Some(Opened(lines[h], lines[h + 1..])))
  }

  /** After any prefix of the input, the parser state is the one the sections
      describe. */
  lemma {:induction false} RunInvariant(lines: seq<string>)
    ensures Run(lines) == Expected(lines)
    decreases |lines|
  {
    if lines != [] {
      var p := lines[..|lines| - 1];
      var l := lines[|lines| - 1];
      assert lines == p + [l];
      RunInvariant(p);
      if IsHeader(l) {
        HeaderStep(p, l);
      } else {
        OtherStep(p, l);
      }
    }
  }

  /** A header commits the open snippet, which completes the sections so far,
      and opens an empty one. */
  lemma HeaderStep(p: seq<string>, l: string)
    requires IsHeader(l)
    ensures Step(Expected(p), l) == Expected(p + [l])
  {
    var lines := p + [l];
    assert lines[..|p|] == p;
    assert lines[|p| + 1..] == [];
    CommitSection(p);
    HeaderLine(l);
    assert Opened(l, []) == NewSnippet(HeaderName(l));
  }

  /** Any other line leaves the committed snippets and the open header alone
      and extends the open section. */
  lemma OtherStep(p: seq<string>, l: string)
    requires !IsHeader(l)
    ensures Step(Expected(p), l) == Expected(p + [l])
  {
    var lines := p + [l];
    assert lines[..|p|] == p;
    assert LastOfKind(lines, Header) == LastOfKind(p, Header);
    match LastOfKind(p, Header)
    case None =>
    case Some(h) =>
      SnocSlices(p, l, h);
      OpenedStep(Sectioned(p[..h]), p[h], p[h + 1..], l);
  }

  lemma SnocSlices<T>(p: seq<T>, x: T, h: nat)
    requires h < |p|
    ensures (p + [x])[..h] == p[..h]
    ensures (p + [x])[h] == p[h]
    ensures (p + [x])[h + 1..] == p[h + 1..] + [x]
  {
  }

  /** Committing the open snippet of the expected state gives the sections of
      all the lines. */
  lemma CommitSection(p: seq<string>)
    ensures Add(Expected(p).res, Expected(p).current) == Sectioned(p)
  {
  }

  /** A non-header line updates the open snippet exactly as appending it to
      the section does. */
  lemma OpenedStep(res: seq<Snippet>, header: string, sect: seq<string>, l: string)
    requires IsHeader(header) && !IsHeader(l)
    ensures Step(State(res, Some(Opened(header, sect))), l) == State(res, Some(Opened(header, sect + [l])))
  {
    SectionSnoc(sect, l);
    var c := Opened(header, sect);
    match KindOf(l)
    case Comment =>
    case Abbr => StepAbbr(res, c, l);
    case Alias => StepAlias(res, c, l);
    case Body =>
      StepBody(res, c, l);
      MinIndentSnoc(BodyOf(sect), l);
  }

  /** A body line is appended and lowers the margin when it is not blank and
      less indented. */
  lemma StepBody(res: seq<Snippet>, c: Snippet, l: string)
    requires KindOf(l) == Body
    ensures Step(State(res, Some(c)), l) == State(res, Some(c.(
      body := c.body + [l],
      bodyMinIndent := if !Blank(l) && LeadingSpaces(l) < c.bodyMinIndent then LeadingSpaces(l) else c.bodyMinIndent)))
  {
  }

  lemma MinIndentSnoc(b: seq<string>, l: string)
    ensures MinIndent(b + [l]) ==
      if !Blank(l) && LeadingSpaces(l) < MinIndent(b) then LeadingSpaces(l) else MinIndent(b)
  {
    var s := b + [l];
    assert s[..|s| - 1] == b;
  }

  lemma StepAbbr(res: seq<Snippet>, c: Snippet, l: string)
    requires KindOf(l) == Abbr
    ensures Step(State(res, Some(c)), l) == State(res, Some(c.(abbr := AbbrText(l))))
  {
    var line := TrimSpace(l);
    ClassifyByPrefix(line);
    Keywords();
    KeywordLine(line, "abbr");
  }

  lemma StepAlias(res: seq<Snippet>, c: Snippet, l: string)
    requires KindOf(l) == Alias
    ensures Step(State(res, Some(c)), l) == State(res, Some(c.(alias := AliasText(l))))
  {
    var line := TrimSpace(l);
    ClassifyByPrefix(line);
    Keywords();
    KeywordLine(line, "alias");
  }

  /** Appending a line to a section changes only what that line's kind
      governs. */
  lemma SectionSnoc(sect: seq<string>, l: string)
    ensures BodyOf(sect + [l]) == if KindOf(l) == Body then BodyOf(sect) + [l] else BodyOf(sect)
    ensures AbbrOf(sect + [l]) == if KindOf(l) == Abbr then AbbrText(l) else AbbrOf(sect)
    ensures AliasOf(sect + [l]) == if KindOf(l) == Alias then AliasText(l) else AliasOf(sect)
  {
    var s := sect + [l];
    assert s[..|s| - 1] == sect;
    assert s[|s| - 1] == l;
    BodyOfSnoc(sect, l);
  }

  /** The parse loop followed by the final commit computes the sections. */
  lemma RunIsSectioned(lines: seq<string>)
    ensures Add(Run(lines).res, Run(lines).current) == Sectioned(lines)
  {
    RunInvariant(lines);
    CommitSection(lines);
  }

  /** At most one snippet per header line. */
  lemma {:induction false} SectionedCount(lines: seq<string>)
    ensures |Sectioned(lines)| <= HeaderCount(lines)
    decreases |lines|
  {
    match LastOfKind(lines, Header)
    case None =>
    case Some(h) =>
      SectionedCount(lines[..h]);
      CountToLastHeader(lines, h);
  }

  /** The last header adds one to the count of the lines before it. */
  lemma {:induction false} CountToLastHeader(lines: seq<string>, h: nat)
    requires LastOfKind(lines, Header) == Some(h)
    ensures HeaderCount(lines) == HeaderCount(lines[..h]) + 1
    decreases |lines|
  {
    var n := |lines|;
    var p := lines[..n - 1];
    if h < n - 1 {
      assert p[..h] == lines[..h];
      CountToLastHeader(p, h);
    } else {
      assert p == lines[..h];
    }
  }

  /** `snippet.Render`: the text with its placeholders expanded. A text
      without `$`, or whose every placeholder is malformed, renders as it
      is. */
  function Render(s: Snippet, vals: seq<string>): (r: string)
    requires Sliceable(s)
    requires Expandable(Tokens(Text(s)))
    ensures '$' !in Text(s) ==> r == Text(s)
    ensures (forall k :: 0 <= k < |Tokens(Text(s))| ==> ParseVar(Tokens(Text(s))[k]).None?) ==> r == Text(s)
  {
    ExpandVars(Text(s), vals)
  }

  /** A snippet whose text has no `$` renders to its text, whatever the
      values. */
  lemma RenderPlain(s: Snippet, vals: seq<string>)
    requires Sliceable(s) && '$' !in Text(s)
    ensures Expandable(Tokens(Text(s))) && Render(s, vals) == Text(s)
  {
    NoDollarUnchanged(Text(s), vals);
  }
}
