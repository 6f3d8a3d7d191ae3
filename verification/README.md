# go-snip snippet core in Dafny

This project models the `snippet` package of go-snip. The package reads snippet
files and renders snippets with positional arguments. Three parts are modelled,
each as pure functions over immutable values.

- **Parser and renderer** (`snippet/snippet.go`). `parse` trims and classifies
  every line of a file: comment, `snippet <name>` header, `abbr` directive,
  `alias` directive, or body line. One open snippet collects the directives and
  the raw body lines. It is committed when the next header starts and at end of
  input. The parser tracks the least indentation of the non-blank body lines,
  and `String()` cuts that margin off again. `Render` expands the placeholders
  of that text. The pure part of `LoadFromDir` is modelled too: the directory
  walk becomes a sequence of visited entries.
- **Placeholder expansion** (`snippet/vars.go`). A hand-written scanner finds
  the tokens of the pattern `(\$\{.*?\}|\$\d+?)`. `parseVar` and `expandVar`
  turn a token into its argument or its default. `expandVars` replaces each
  token found at every occurrence, in the order found.
- **List helpers** (`snippet/lists.go`). These are the bounded read `Get`, the
  commit `add` and the lookup `Find`.

Modules follow the source:
- `Wrappers`: `Option`, `Result`, and a message-carrying `IoError`.
- `GoStrings`: the subset of Go's `strings` package in use.
- `Strconv`: `strconv.ParseInt(s, 0, 64)`.
- `Record`: the snippet record and `String()`.
- `Lists`, `Vars`, `Parser` and `Loader`: the three source files.
- `Scenarios`: the expected values of the repository's tests, stated as lemmas.

Each operation has a partner:
- **`Parse`** is a fold over the lines with a single open slot. It is proved
  equal to `Sectioned`, an independent reading in which every header opens a
  section that runs to the next header (`RunInvariant`, `RunIsSectioned`).
- **The token scanner** is proved to produce exactly the leftmost,
  non-overlapping list of matches (`ScanIsLeftmost`, `LeftmostIsUnique`).
- **`String()`** is related back to the body by splitting its text at newlines
  (`TextLines`).
- **`ReplaceAll`** is related to `Join(Split(…))` (`ReplaceAllIsJoinOfSplit`).
- **`ParseInt`** is inverted by decimal formatting (`ParseFormatInt`).
- **`TrimSpace`, `Trim` and `Fields`** are characterised as the infix between
  maximal runs of cut characters (`TrimSpaceInfix`, `TrimInfix`) and as the
  unique weaving of words and white-space gaps (`FieldsIff`).

Several behaviours of the code are easy to misread. The model follows the code:
- **Lookup.** `Find` compares names only. snippet/lists.go:27 carries a TODO
  to handle the alias, and the loop at snippet/lists.go:28-31 never reads it.
  The test case at snippet/snippet_test.go:123 expects `Find("b")` to return
  the snippet whose alias is `b`. By the code that call returns nil, as
  `Scenarios.FindExamples` shows.
- **Defaults.** snippet/vars.go:12 splits the token at every `:`, and
  snippet/vars.go:18 takes the second piece. So `${1:a:b}` has default `a`,
  not `a:b` (`Scenarios.ParseVarTwoColons`).
- **Signs and prefixes.** snippet/vars.go:13 calls `strconv.ParseInt(…, 0, 64)`.
  Base 0 accepts a sign and the `0x`/`0o`/`0b`/leading-`0` prefixes, so an
  index can be negative or written in another base (`Strconv.ParseInt`).
- **Blank lines.** There is no "blank" line class in `parse`, because
  `IsBlank` is never called. A blank line inside a snippet is a body line.
- **`$13`.** The lazy `\d+?` makes `$13` the token `$1` followed by the
  literal `3` (`Scenarios.ExpandVarsDollar13`). Yet `parseVar("$13")` reads
  index 13, which is the test's expectation (`Scenarios.ParseVarDollar13`).

## Model

| member | source | states |
|---|---|---|
| GoStrings.TrimSpace | snippet/snippet.go:127 | the trimmed line has no white space at either end, is empty exactly when the line is all white space, and an already trimmed line is unchanged |
| GoStrings.TrimSpaceBothSides | snippet/snippet.go:127 | trimming white space from both ends equals trimming the left end and then the right end |
| GoStrings.TrimSpaceInfix | snippet/snippet.go:127 | the trimmed line is the part of the line between a leading and a trailing run of white space |
| GoStrings.LeadingSpaces | snippet/snippet.go:145 | the indentation count is the length of the leading run of U+0020: every counted character is a space and the next one is not |
| GoStrings.Fields | snippet/snippet.go:97-99 | every field is non-empty and free of white space, and there are no fields exactly when the line is all white space |
| GoStrings.FieldsWoven | snippet/snippet.go:97-99 | a line is its fields woven with white-space gaps, the inner gaps non-empty, so the fields are the maximal runs of non-space in order |
| GoStrings.FieldsUnique | snippet/snippet.go:97-99 | any weaving of non-empty space-free words with white-space gaps, non-empty between words, has exactly those words as the fields |
| GoStrings.FieldsIff | snippet/snippet.go:97-99 | a list of words is the fields of a line exactly when the line weaves those words with white-space gaps |
| GoStrings.KeywordLine | snippet/snippet.go:133 | a trimmed line that starts with a keyword and a space has that keyword as its first field and at least one more field |
| GoStrings.FieldsTwo | snippet/snippet.go:142-143 | two words separated by one space are exactly two fields |
| GoStrings.IndentedWord | snippet/snippet.go:145 | for a word after n spaces, TrimSpace yields the word and the indentation count is n |
| GoStrings.TrimPrefix | snippet/vars.go:10 | when the text starts with the prefix, the result is what follows it, and otherwise the text is unchanged |
| GoStrings.TrimSuffix | snippet/snippet.go:39 | when the name ends with the suffix, the result is the name without it, and otherwise the name is unchanged |
| GoStrings.Trim | snippet/vars.go:11 | the result neither starts nor ends with a cut character, and a text that already does not is unchanged |
| GoStrings.TrimInfix | snippet/vars.go:11 | the trimmed text is the part of the text between a leading and a trailing run of cut characters |
| GoStrings.ReplaceAllIsJoinOfSplit | snippet/vars.go:36 | replacing every occurrence equals splitting at the pattern and joining the pieces with the replacement |
| GoStrings.JoinOfSplit | snippet/vars.go:12 | joining the pieces of a split with the separator gives back the text |
| GoStrings.SplitOfJoin | snippet/snippet.go:88 | splitting a newline-join of newline-free lines at newlines gives back the lines |
| GoStrings.ReplaceAllSelf | snippet/vars.go:36 | replacing a token by itself leaves the text unchanged |
| GoStrings.ReplaceAllAbsent | snippet/vars.go:36 | a text without the pattern is unchanged by replacement |
| GoStrings.AbsentIff | snippet/vars.go:36 | a pattern is absent from a text exactly when it occurs at no position |
| GoStrings.ReplaceAllFirst | snippet/vars.go:36 | for any text before the first occurrence of the pattern, that text is kept, the occurrence is replaced, and replacement continues behind it; with `ReplaceAllAbsent` this fixes the result on every text |
| GoStrings.ReplaceAllAfter | snippet/vars.go:36 | the special case of `ReplaceAllFirst` where the text before the occurrence does not contain the pattern's first character |
| GoStrings.SplitWithoutSeparator | snippet/vars.go:12 | a text without the separator splits into one piece, itself |
| GoStrings.SplitAtFirst | snippet/vars.go:12 | splitting at a character cuts at its first occurrence and then splits the rest |
| GoStrings.Split | snippet/vars.go:12 | a split has at least one piece, and splitting at one character leaves no piece containing it |
| GoStrings.Join | snippet/snippet.go:88 | the joined text is as long as all parts together plus one separator between each two parts |
| GoStrings.ReplaceAll | snippet/vars.go:36 | replacing with an equally long text keeps the length, a shorter one never lengthens and a longer one never shortens the text |
| Strconv.DigitsValue | snippet/vars.go:13 | the digits have a value exactly when every character is a digit of the base, and the value is the positional one, most significant digit first |
| Strconv.PositionalSnoc | snippet/vars.go:13 | the value of a numeral is the value without its last digit times the base plus the last digit |
| Strconv.ParseInt | snippet/vars.go:13 | a parsed index lies in the signed 64-bit range, and a negative one comes from text starting with '-' |
| Strconv.ParseFormatInt | snippet/vars.go:13 | parsing the decimal rendering of any 64-bit integer gives it back |
| Strconv.ParseDecimal | snippet/vars.go:13 | a decimal numeral without leading zero reads as its value |
| Strconv.ParseIntDigit | snippet/vars.go:13 | a single decimal digit reads as its value, with '0' going through the octal rule |
| Strconv.ParseIntNonDigit | snippet/vars.go:13 | a single character that is neither digit nor sign is a syntax error |
| Record.StripLines | snippet/snippet.go:82-87 | the output has one line per body line, each the body line with the margin cut when it is non-blank |
| Record.StripLine | snippet/snippet.go:83-85 | a blank line is kept, and a non-blank line indented at least the margin is the margin's spaces followed by the result |
| Record.StripLinesLength | snippet/snippet.go:82-87 | the stripped lines are shorter than the body by exactly the margin for each non-blank line |
| Record.Text | snippet/snippet.go:80-89 | String() of a non-empty body is as long as its lines plus the newlines between them, less the margin for each non-blank line |
| Record.IndentedIsSliceable | snippet/snippet.go:83-84 | when every non-blank line has at least bodyMinIndent leading spaces, the slice l[bodyMinIndent:] is always in range |
| Record.TextLines | snippet/snippet.go:80-89 | String() splits back into exactly the body lines: blank lines unchanged, non-blank lines having lost exactly bodyMinIndent characters, all spaces |
| Record.StripIndented | snippet/snippet.go:83-84 | a line indented n spaces loses m of them when the margin m is at most n |
| Record.TextOfTwoLines | snippet/snippet.go:88 | a two-line body renders as its two stripped lines around one newline |
| Lists.Get | snippet/lists.go:10-15 | an index inside the list reads that element, and an index at or past the end reads "" |
| Lists.Add | snippet/lists.go:19-24 | the earlier entries are untouched, and the snippet is appended exactly when it is present and has body lines |
| Lists.Find | snippet/lists.go:26-34 | the result is a position whose name matches with no earlier match, and there is none exactly when no element has that name |
| Lists.FindSeesOnlyNames | snippet/lists.go:28-31 | lists with the same names in the same order answer every lookup alike, whatever their aliases |
| Lists.FindIgnoresAlias | snippet/lists.go:27 | a name that only occurs as an alias is not found |
| Vars.ExpandVar | snippet/vars.go:22-31 | an unparsable token is kept, and otherwise the result is the argument at the index when it exists and is non-empty, else the default |
| Vars.ParseVar | snippet/vars.go:9-20 | a parsed index lies in the signed 64-bit range, the default never contains `:`, and a token without `:` has an empty default |
| Vars.ReplaceEach | snippet/vars.go:35-37 | when none of the tokens occurs in the text, the loop returns the text unchanged |
| Vars.ReplaceEachCons | snippet/vars.go:35-37 | the loop replaces the first token everywhere by its expansion and goes on with the others in the resulting text |
| Vars.ExpandVars | snippet/vars.go:33-39 | a text without `$`, or whose every token fails to parse, is returned as it is |
| Vars.CloseBrace | snippet/vars.go:34 | the lazy `.*?\}` stops at the first `}`, and fails when a newline comes first or there is none |
| Vars.TokenAt | snippet/vars.go:34 | a match at a position is at least two characters long and lies inside the text |
| Vars.TokenAtShape | snippet/vars.go:34 | every match is a whole token, `$` followed by a digit always matches with length 2, and a `${` closed on its line matches up to that `}` |
| Vars.ScanIsLeftmost | snippet/vars.go:35 | the scan's matches are whole, ordered and disjoint, and no match starts at an uncovered position |
| Vars.LeftmostIsUnique | snippet/vars.go:35 | any leftmost non-overlapping list of matches is the scan's |
| Vars.Tokens | snippet/vars.go:34-35 | every token found has one of the two token shapes |
| Vars.TokensOf | snippet/vars.go:35 | the tokens of a text are the texts of any leftmost non-overlapping list of matches |
| Vars.TokensEmptyIff | snippet/vars.go:34-35 | a text has no token exactly when the pattern matches at no position |
| Vars.NoDollarUnchanged | snippet/vars.go:33-39 | a text without `$` has no token and expands to itself |
| Vars.NoTokenUnchanged | snippet/vars.go:33-39 | a text in which the pattern matches nowhere expands to itself |
| Vars.MalformedKept | snippet/vars.go:35-36 | replacing tokens that do not parse, in turn, leaves the text unchanged |
| Vars.ExpandOneToken | snippet/vars.go:35-36 | with a single token, that token is replaced at every occurrence by its expansion |
| Vars.ExpandTwoTokens | snippet/vars.go:35-36 | with two tokens, the first is replaced everywhere and then the second, each by its own expansion |
| Vars.ParseDollarDigit | snippet/vars.go:9-20 | `$d` reads index d with an empty default |
| Vars.ParseVarSingle | snippet/vars.go:12-18 | a token with no `:` takes its index from the whole unwrapped text and has an empty default |
| Vars.ParseDollarNumber | snippet/vars.go:9-20 | `$n` for any decimal n in range reads index n with an empty default |
| Vars.UnwrapDigits | snippet/vars.go:10-12 | `$` and digits unwrap to the digits, in one piece |
| Vars.ParseBracedWithDefault | snippet/vars.go:9-20 | `${n:x}` parses exactly when n does, with index from n and default the text of x up to its next `:` |
| Vars.ParseBraced | snippet/vars.go:9-20 | `${n}` parses exactly when n does, with an empty default |
| Vars.BracedPieces | snippet/vars.go:10-12 | the pieces of `${n:x}` are n followed by the pieces of x |
| Vars.FromTwoPieces | snippet/vars.go:13-18 | the index comes from the first piece and the default from the second |
| Vars.UnwrapBraced | snippet/vars.go:10-11 | unwrapping `${body}` gives body when it neither starts nor ends with a brace |
| Vars.TrimBraces | snippet/vars.go:11 | trimming braces from `{body}` gives body when body does not start or end with one |
| Parser.ClassifyByPrefix | snippet/snippet.go:101-115 | a trimmed line is a comment, header, abbr or alias line exactly when it has the matching prefix, and a body line exactly when it has none of them, so the tests exclude each other |
| Parser.HeaderLine | snippet/snippet.go:131-138 | a header always has a name field after `snippet`, so the `len(tokens) < 2` branch is dead, and a bare `snippet` is a body line |
| Parser.BareKeyword | snippet/snippet.go:105-107 | the keyword `snippet` without a following space is not classified as a directive |
| Parser.StepHeaderNamed | snippet/snippet.go:131-138 | a `snippet <name>` line commits the open snippet and opens a fresh one with that name |
| Parser.StepAliasNamed | snippet/snippet.go:141-143 | an `alias <a>` line inside a snippet sets its alias to a |
| Parser.StepAbbrText | snippet/snippet.go:139-140 | an `abbr <text>` line inside a snippet sets its abbreviation to the whole remaining text |
| Parser.StepIndented | snippet/snippet.go:144-150 | an indented body line is appended verbatim and lowers the margin to its indentation when that is smaller |
| Parser.StepEmpty | snippet/snippet.go:144-150 | an empty line is ignored outside a snippet, and inside one it is appended without touching the margin |
| Parser.StepBody | snippet/snippet.go:144-150 | a body line is appended raw, and the margin drops to its indentation only when it is non-blank and less indented |
| Parser.StepAbbr | snippet/snippet.go:139-140 | an abbr directive sets the abbreviation to the line without its first field, trimmed |
| Parser.StepAlias | snippet/snippet.go:141-143 | an alias directive sets the alias to the second field |
| Parser.RunSnoc | snippet/snippet.go:126-151 | the scan loop processes the last line after all the others |
| Parser.StepCommits | snippet/snippet.go:126-151 | one line commits at most one snippet, only on a header and only with body lines, never changes what was committed, and outside a snippet any other line changes nothing |
| Parser.RunCommits | snippet/snippet.go:126-151 | the scan loop commits at most one snippet per header, each with body lines, and a file without a header leaves nothing committed or open |
| Scenarios.ParseOfRun | snippet/snippet.go:152-158 | without a read error, `parse` returns the committed snippets followed by the open one if it has body lines |
| Parser.Parse | snippet/snippet.go:121-159 | a read error yields that error and nothing else; otherwise the result is the section-by-section reading, at most one snippet per header, each with a body and a margin String() can cut |
| Parser.LastOfKind | snippet/snippet.go:139-143 | the position found is the last line of the kind, and there is none exactly when no line has that kind |
| Parser.HeaderName | snippet/snippet.go:133-138 | a header's name is a non-empty word without white space |
| Parser.BodyOfMembers | snippet/snippet.go:144-149 | a body holds exactly the section's body lines, blank ones included, and no comment or directive line |
| Parser.BodyOfAppend | snippet/snippet.go:149 | body lines keep file order across any split of the section |
| Parser.BodyOfSnoc | snippet/snippet.go:144-149 | a further line joins the body exactly when it is a body line |
| Parser.MinIndent | snippet/snippet.go:145-148 | the margin is at most every non-blank line's indentation, equals one of them unless it is the MaxInt64 sentinel, and is the sentinel when all lines are blank |
| Parser.MinIndentSnoc | snippet/snippet.go:145-148 | a further line lowers the margin only when it is non-blank and less indented |
| Parser.Opened | snippet/snippet.go:138-150 | the snippet a section describes has its margin below every non-blank body line's indentation |
| Parser.Sectioned | snippet/snippet.go:131-152 | every snippet of the section reading has body lines and a margin its body respects |
| Parser.AddKeepsCommitted | snippet/lists.go:19-24 | committing a snippet with a respected margin keeps every entry non-empty and well indented |
| Parser.RunInvariant | snippet/snippet.go:126-151 | after any prefix of the input, the committed snippets are the completed sections and the open snippet is the last header's section |
| Parser.HeaderStep | snippet/snippet.go:131-138 | a header commits the open section and opens an empty one |
| Parser.OtherStep | snippet/snippet.go:139-150 | any other line leaves the committed snippets alone and extends the open section |
| Parser.CommitSection | snippet/snippet.go:152 | committing the open snippet gives the sections of all lines |
| Parser.OpenedStep | snippet/snippet.go:139-150 | a non-header line changes the open snippet exactly as appending it to the section does |
| Parser.SectionSnoc | snippet/snippet.go:139-149 | appending a line to a section changes only the body, abbreviation or alias, according to its kind, with the later directive winning |
| Parser.RunIsSectioned | snippet/snippet.go:126-152 | the scan loop followed by the final commit computes the section reading |
| Parser.SectionedCount | snippet/snippet.go:132 | there is at most one snippet per header line |
| Parser.RenderPlain | snippet/snippet.go:91-93 | a snippet whose text has no `$` renders to its text whatever the values |
| Parser.Render | snippet/snippet.go:91-93 | a snippet whose text has no `$`, or whose every token fails to parse, renders to its text |
| Loader.Key | snippet/snippet.go:38-39 | a `.snip` name is its key followed by `.snip` |
| Loader.KeyInjective | snippet/snippet.go:39 | distinct `.snip` names give distinct keys |
| Loader.Visit | snippet/snippet.go:28-48 | the callback fails exactly on a walk error or an unreadable `.snip` file, stores the parsed group under its key for a `.snip` file, and ignores anything else |
| Loader.WalkFailure | snippet/snippet.go:28-51 | the walk fails exactly when some entry fails, with the error of the first |
| Loader.Walk | snippet/snippet.go:28-49 | a successful walk keeps every group present before it: groups are added or replaced, never removed |
| Loader.LoadFromDir | snippet/snippet.go:24-53 | LoadFromDir fails exactly when some entry stops the walk, with the error of the first such entry |
| Loader.WalkKeys | snippet/snippet.go:35-47 | without failures, the keys are those present before plus one per `.snip` file name |
| Loader.WalkLastWins | snippet/snippet.go:44-47 | without failures, a key holds what the last `.snip` file of that name parses to |
| Loader.WalkUntouched | snippet/snippet.go:44-47 | without failures, a key that no `.snip` file names keeps its value |
| Loader.LoadFromDirResult | snippet/snippet.go:35-47 | a successful LoadFromDir has exactly one group per `.snip` name |
| Scenarios.ParseVarDollar13 | snippet/vars_test.go:11 | `$13` reads index 13 with an empty default |
| Scenarios.ParseVarBracedZero | snippet/vars_test.go:12 | `${0}` reads index 0 with an empty default |
| Scenarios.ParseVarBracedTwo | snippet/vars_test.go:13 | `${2}` reads index 2 with an empty default |
| Scenarios.ParseVarWithDefault | snippet/vars_test.go:14 | `${1:fn}` reads index 1 and default fn |
| Scenarios.ParseVarWithDefaultTen | snippet/vars_test.go:15 | `${10:someUrl}` reads index 10 and default someUrl |
| Scenarios.ParseVarTwoColons | snippet/vars.go:12-18 | `${1:a:b}` reads index 1 and default a |
| Scenarios.ExpandVarDollarZero | snippet/vars_test.go:37 | `$0` with arguments ["foo"] expands to foo |
| Scenarios.ExpandVarBracedZero | snippet/vars_test.go:38 | `${0}` with arguments ["foo"] expands to foo |
| Scenarios.ExpandVarDefault | snippet/vars_test.go:39 | `${1:bar}` with arguments ["foo"] falls back to its default bar |
| Scenarios.ExpandVarsTwoDollars | snippet/vars_test.go:57 | `$0 - $1` with ["foo", "bar"] expands to `foo - bar` |
| Scenarios.TokensTwoDollars | snippet/vars_test.go:57 | the tokens of `$0 - $1` are `$0` and `$1` |
| Scenarios.ExpandVarsMalformed | snippet/vars_test.go:58 | `foo ${a} $b ${}` comes back unchanged |
| Scenarios.ParseVarEmptyBraces | snippet/vars_test.go:58 | `${}` has no index |
| Scenarios.ParseVarLetter | snippet/vars_test.go:58 | `${a}` has no index |
| Scenarios.ExpandVarsPlain | snippet/vars_test.go:59 | a text without placeholders comes back unchanged |
| Scenarios.TokensDollar13 | snippet/vars.go:34 | the only token of `$13` is `$1` |
| Scenarios.ExpandVarsDollar13 | snippet/vars.go:33-39 | `$13` with ["a", "b"] expands to b3 |
| Scenarios.ReplaceAfterStrayDollar | snippet/vars.go:36 | in `$b $1` a `$` that starts no token does not hide `$1`, which is replaced |
| Scenarios.ExpandDollarDigit | snippet/vars.go:22-31 | `$d` expands to argument d when it exists and is non-empty |
| Scenarios.ParseEmpty | snippet/snippet_test.go:55 | empty input parses to an empty list |
| Scenarios.ParseFoo | snippet/snippet_test.go:56-81 | the fifteen lines of snippetText (snippet/snippet_test.go:12-27) parse to foo, alias f, abbreviation `foo ...`, body ["    foobar", ""], margin 4, and to multiline, alias m, abbreviation `multiline ...`, body ["    bar", "", "\tfuzzbuzz", "", ""], margin 0 |
| Scenarios.RunFoo | snippet/snippet_test.go:60-69 | after the foo lines of snippetText the snippet foo is still open with both body lines and margin 4 |
| Scenarios.TextExamples | snippet/snippet_test.go:31-46 | `parse` of the String() test's input gives two snippets whose String() values are `foobar\n` and `bar\n    fuzzbuzz` |
| Scenarios.ParseGiven | snippet/snippet_test.go:31-44 | the input of the String() test parses to foo and to multiline with body ["    bar", "        fuzzbuzz"] and margin 4 |
| Scenarios.TextMultiline | snippet/snippet_test.go:46 | a line indented deeper than the margin keeps the excess spaces |
| Scenarios.FindExamples | snippet/snippet_test.go:121-133 | lookup finds buzz at 3 and the first bar at 1, nothing for an unknown name, and nothing for `b`, which only occurs as an alias |

## Left out

- main.go: flag and environment parsing, paths under `$HOME`, JSON export and fatal exits are command-line plumbing outside the core.
- `filepath.Walk`, `os.Open` and `parseFile`: the walk becomes a sequence of entries that carry the walk error and what reading the file delivers (`Loader.Entry`).
- `bufio.Scanner`: `Parser.Input` gives the lines it delivers and the error `scanner.Err()` reports. The 64 KiB line limit, `\r` stripping and line splitting are not modelled.
- `Groups.PrintNames`, `list.PrintNames` and the `sourceFilename` field: they only write to an `io.Writer` or serve display, and map iteration order is random.
- `IsBlank` (snippet/snippet.go:117-119) is never called by the source, so it is not modelled.
- Byte offsets: strings are sequences of runes, while Go slices by bytes. For the snippets `parse` builds, the slice in `String()` only cuts leading U+0020 characters, which are one byte each, so the two agree (`Parser.Parse` shows every parsed snippet is indented at least its margin). `Record.Text` itself only requires the slice to be in range, and for a hand-built record whose cut covers multi-byte characters the rune slice differs from Go's byte slice.
- Strconv.ParseInt: `_` digit separators, which base 0 accepts, are not modelled; a token containing `_` is treated as a syntax error.
- Lists.Add: a nil body and an empty non-nil body are the same value here. `parse` only builds bodies by appending, so every body it builds is nil exactly when it is empty.
- Lists.Get: requires a non-negative index, because the Go code panics on a negative one.
- Vars.ExpandVar: requires that the token does not parse to a negative index (for example `${-1}`), because `Get` would panic. `Vars.ExpandVars` and `Parser.Render` carry the same requirement for every token of the text.
- Record.Text: requires every non-blank line to be long enough for the margin, because the Go slice panics otherwise. `Record.IndentedIsSliceable` and `Parser.Parse` show that parsed snippets always meet this.
- Parser.Render: its contract only says when the text comes back unchanged. In general it is `Vars.ExpandVars` of `Record.Text`, whose replacements are stated by `Vars.ExpandOneToken` and `Vars.ExpandTwoTokens`.
- The expected value of snippet/vars_test.go:56 (`lala ${0} ${1} ${2:bar} bla`) is not restated as a lemma. Its three tokens would need a three-step replacement proof, and the model stops at two tokens (`Vars.ExpandTwoTokens`, `Scenarios.ExpandVarsTwoDollars`).
- Scenarios.RunFoo: stated for the body line as a parameter equal to four spaces and `foobar` rather than for the literal, to keep the proof small; `Scenarios.ParseFoo` states the literal result.
- GoStrings.TrimSpace: its own contract gives the shape of the result but not its position in the line. That position, the infix between maximal white-space runs, is stated separately by `GoStrings.TrimSpaceInfix` and `GoStrings.TrimSpaceBothSides`. Putting it on the function would make every proof that unfolds `TrimSpace` far more expensive.
- GoStrings.Trim: its own contract gives the shape of the result. That the result is the infix between maximal runs of cut characters is `GoStrings.TrimInfix`, kept separate for the same reason.
- GoStrings.Fields: its own contract says the fields are non-empty and free of white space. That they are the maximal non-space runs, in order, is `GoStrings.FieldsWoven` and `GoStrings.FieldsIff`, kept separate for the same reason.
- Vars.ParseVar: its own contract bounds the index and the default. The reading of each token shape is stated by `Vars.ParseDollarNumber`, `Vars.ParseBraced`, `Vars.ParseBracedWithDefault` and `Vars.ParseVarSingle`.
- Vars.ExpandVars: its own contract only says when the text comes back unchanged. The replacements are stated by `Vars.ExpandOneToken` and `Vars.ExpandTwoTokens`.
- Loader.Walk: its own contract only says groups are never removed. Which groups it holds and what they contain are `Loader.WalkKeys`, `Loader.WalkLastWins` and `Loader.WalkUntouched`.
- Record.Text: its own contract gives the length of `String()`. Its content line by line is `Record.TextLines`.
- GoStrings.ReplaceAll: its own contract gives the length relations only. Which occurrences are replaced is stated by `GoStrings.ReplaceAllFirst`, `GoStrings.ReplaceAllAbsent` and `GoStrings.AbsentIff`, kept separate because the function is unfolded by every expansion proof.
- Vars.ReplaceEach: its own contract states only the case where no token occurs. The loop step is `Vars.ReplaceEachCons`, and the full results for one and two tokens are `Vars.ExpandOneToken` and `Vars.ExpandTwoTokens`.
