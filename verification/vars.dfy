/**
 Placeholder expansion of snippet/vars.go. The pattern `(\$\{.*?\}|\$\d+?)`
 is modelled by a scanner for its two token shapes; every token found is
 then replaced, everywhere in the current text, by its expansion.
 */
module Vars {
  import opened Wrappers
  import opened GoStrings
  import opened Strconv
  import opened Lists

  /** A parsed placeholder: positional index and literal default. */
  datatype Var = Var(index: int, dflt: string)

  /** `parseVar`: drop one `$`, trim the braces, split at every `:`, read the
      index from the first piece and the default from the second. The index
      is a 64-bit integer, the default never holds a `:`, and a token without
      `:` has no default. */
  function ParseVar(v: string): (r: Option<Var>)
    ensures r.Some? ==> MinInt64 <= r.value.index <= MaxInt64
    ensures r.Some? ==> ':' !in r.value.dflt
    ensures r.Some? && ':' !in v ==> r.value.dflt == ""
  {
    NoColonOnePiece(v);
    FromPieces(Split(Unwrap(v), ":"))
  }

  /** A token without `:` unwraps to a single piece. */
  lemma NoColonOnePiece(v: string)
    ensures ':' !in v ==> Split(Unwrap(v), ":") == [Unwrap(v)]
  {
    if ':' !in v {
      UnwrapWithout(v, ':');
      SplitWithoutSeparator(Unwrap(v), ':');
    }
  }

  /** The token without its `$` and surrounding braces. */
  function Unwrap(v: string): string {
    Trim(TrimPrefix(v, "$"), "{}")
  }

  /** Unwrapping only removes characters. */
  lemma UnwrapWithout(v: string, c: char)
    requires c !in v
    ensures c !in Unwrap(v)
  {
    var w := TrimPrefix(v, "$");
    assert c !in w;
    TrimInfix(w, "{}");
  }

  /** Index from the first piece, default from the second. */
  function FromPieces(pieces: seq<string>): Option<Var>
    requires |pieces| >= 1
  {
    match ParseInt(pieces[0])
    case None => None
    case Some(i) => Some(Var(i, Get(pieces, 1)))
  }

  /** The token parses to a negative index, which makes `Get` panic in Go. */
  predicate NegativeIndex(v: string) {
    ParseVar(v).Some? && ParseVar(v).value.index < 0
  }

  /** `expandVar`: an unparsable token stays as it is; otherwise the argument
      at the index when it exists and is non-empty, else the default. */
  function ExpandVar(v: string, args: seq<string>): (r: string)
    requires !NegativeIndex(v)
    ensures ParseVar(v).None? ==> r == v
    ensures ParseVar(v).Some? ==>
      var x := ParseVar(v).value;
      r == if x.index < |args| && args[x.index] != "" then args[x.index] else x.dflt
  {
    match ParseVar(v)
    case None => v
    case Some(x) =>
      var val := Get(args, x.index);
      if val != "" then val else x.dflt
  }

  predicate IsAsciiDigit(c: char) {
    '0' <= c <= '9'
  }

  /** Where `.*?\}` stops when started at `k`: the first `}`, provided no
      newline (which `.` does not match) comes before it. */
  function CloseBrace(t: string, k: nat): (r: Option<nat>)
    ensures r.Some? ==> k <= r.value < |t| && t[r.value] == '}'
    ensures r.Some? ==> forall m :: k <= m < r.value ==> t[m] != '}' && t[m] != '\n'
    ensures r.None? ==> forall j :: k <= j < |t| && t[j] == '}' ==> '\n' in t[k..j]
    decreases |t| - k
  {
    if k >= |t| then None
    else if t[k] == '}' then Some(k)
    else if t[k] == '\n' then
      assert forall j :: k < j < |t| ==> t[k..j][0] == '\n';
      None
    else
      var r := CloseBrace(t, k + 1);
      assert forall j :: k < j <= |t| ==> t[k..j] == [t[k]] + t[k + 1..j];
      r
  }

  /** A token as the pattern matches it: `$` and one ASCII digit, or `${`, a
      run without `}` or newline, and `}`. */
  predicate IsToken(v: string) {
    || (|v| == 2 && v[0] == '$' && IsAsciiDigit(v[1]))
    || (&& |v| >= 3 && v[0] == '$' && v[1] == '{' && v[|v| - 1] == '}'
        && '}' !in v[2..|v| - 1] && '\n' !in v[2..|v| - 1])
  }

  /** Length of the token the pattern matches at position `i`, if any. The
      braced alternative is tried first; `\d+?` is lazy, so the bare form
      takes exactly one digit. */
  function TokenAt(t: string, i: nat): (r: Option<nat>)
    ensures r.Some? ==> 2 <= r.value && i + r.value <= |t|
  {
    if i + 1 < |t| && t[i] == '$' && t[i + 1] == '{' && CloseBrace(t, i + 2).Some? then
      Some(CloseBrace(t, i + 2).value + 1 - i)
    else if i + 1 < |t| && t[i] == '$' && IsAsciiDigit(t[i + 1]) then
      Some(2)
    else
      None
  }

  /** What the pattern matches at `i`: a match is a whole token; a `$` and a
      digit always match; a `${` closed on its line matches up to that `}`. */
  lemma TokenAtShape(t: string, i: nat)
    ensures TokenAt(t, i).Some? ==> IsToken(t[i..i + TokenAt(t, i).value])
    ensures i + 1 < |t| && t[i] == '$' && IsAsciiDigit(t[i + 1]) ==> TokenAt(t, i).Some?
    ensures i + 1 < |t| && t[i] == '$' && t[i + 1] == '{' && CloseBrace(t, i + 2).Some? ==>
      TokenAt(t, i) == Some(CloseBrace(t, i + 2).value + 1 - i)
    ensures TokenAt(t, i).Some? ==> t[i] == '$'
  {
    if i + 1 < |t| && t[i] == '$' && t[i + 1] == '{' && CloseBrace(t, i + 2).Some? {
      var j := CloseBrace(t, i + 2).value;
      var v := t[i..j + 1];
      assert v[2..|v| - 1] == t[i + 2..j];
    }
  }

  /** A matched token occupies `t[start..end]`. */
  datatype Span = Span(start: nat, end: nat)

  /** Position `p` lies inside none of the spans. */
  predicate Uncovered(sp: seq<Span>, p: nat) {
    forall k :: 0 <= k < |sp| ==> !(sp[k].start <= p < sp[k].end)
  }

  /** A matcher over a text of length `len`: `at(p)` is the length of the match
      starting at `p`, if any, and a match is non-empty and inside the text. */
  ghost predicate Matcher(len: nat, at: nat -> Option<nat>) {
    forall p: nat :: at(p).Some? ==> 0 < at(p).value && p + at(p).value <= len
  }

  /** Every span is a whole match of `at` starting at or after `i`. */
  predicate Matches(len: nat, at: nat -> Option<nat>, i: nat, sp: seq<Span>) {
    forall k :: 0 <= k < |sp| ==>
      && i <= sp[k].start < sp[k].end <= len
      && at(sp[k].start) == Some(sp[k].end - sp[k].start)
  }

  /** Spans are in order and do not overlap. */
  predicate Disjoint(sp: seq<Span>) {
    forall k, l :: 0 <= k < l < |sp| ==> sp[k].end <= sp[l].start
  }

  /** No match starts at a position from `i` on that no span covers. */
  predicate NoneMissed(len: nat, at: nat -> Option<nat>, i: nat, sp: seq<Span>) {
    forall p {:trigger Uncovered(sp, p)} :: i <= p < len && Uncovered(sp, p) ==> at(p).None?
  }

  /** `sp` is the leftmost, non-overlapping list of matches of `at` from
      position `i` on: each span is a whole match, spans are ordered and
      disjoint, and no match starts at a position that no span covers. */
  predicate Leftmost(len: nat, at: nat -> Option<nat>, i: nat, sp: seq<Span>) {
    Matches(len, at, i, sp) && Disjoint(sp) && NoneMissed(len, at, i, sp)
  }

  /** The successive matches `FindAll` reports from position `i` on: a match
      is taken where one starts and scanning resumes behind it. */
  function ScanWith(len: nat, at: nat -> Option<nat>, i: nat): seq<Span>
    requires Matcher(len, at)
    decreases len - i
  {
    if i >= len then []
    else
      match at(i)
      case None => ScanWith(len, at, i + 1)
      case Some(n) => [Span(i, i + n)] + ScanWith(len, at, i + n)
  }

  /** The scan finds the leftmost, non-overlapping matches. */
  lemma {:induction false} ScanIsLeftmost(len: nat, at: nat -> Option<nat>, i: nat)
    requires Matcher(len, at)
    ensures Leftmost(len, at, i, ScanWith(len, at, i))
    decreases len - i
  {
    if i < len {
      match at(i)
      case None =>
        var rest := ScanWith(len, at, i + 1);
        assert ScanWith(len, at, i) == rest;
        ScanIsLeftmost(len, at, i + 1);
        LeftmostUnmatched(len, at, i, rest);
      case Some(n) =>
        var rest := ScanWith(len, at, i + n);
        assert ScanWith(len, at, i) == [Span(i, i + n)] + rest;
        ScanIsLeftmost(len, at, i + n);
        LeftmostCons(len, at, i, n, rest);
    }
  }

  lemma LeftmostCons(len: nat, at: nat -> Option<nat>, i: nat, n: nat, rest: seq<Span>)
    requires Matcher(len, at) && at(i) == Some(n)
    requires Leftmost(len, at, i + n, rest)
    ensures Leftmost(len, at, i, [Span(i, i + n)] + rest)
  {
    var r := [Span(i, i + n)] + rest;
    assert Matches(len, at, i, r) by {
      forall k | 0 <= k < |r|
        ensures i <= r[k].start < r[k].end <= len && at(r[k].start) == Some(r[k].end - r[k].start)
      {
        if k > 0 { assert r[k] == rest[k - 1]; }
      }
    }
    assert Disjoint(r) by {
      forall k, l | 0 <= k < l < |r| ensures r[k].end <= r[l].start {
        assert r[l] == rest[l - 1];
        if k > 0 { assert r[k] == rest[k - 1]; }
      }
    }
    assert NoneMissed(len, at, i, r) by {
      forall p | i <= p < len && Uncovered(r, p) ensures at(p).None? {
        UncoveredCons(Span(i, i + n), rest, p);
      }
    }
  }

  lemma LeftmostUnmatched(len: nat, at: nat -> Option<nat>, i: nat, sp: seq<Span>)
    requires at(i).None? && Leftmost(len, at, i + 1, sp)
    ensures Leftmost(len, at, i, sp)
  {
  }

  lemma UncoveredCons(x: Span, rest: seq<Span>, p: nat)
    requires Uncovered([x] + rest, p)
    ensures !(x.start <= p < x.end) && Uncovered(rest, p)
  {
    var r := [x] + rest;
    assert r[0] == x;
    forall k | 0 <= k < |rest| ensures !(rest[k].start <= p < rest[k].end) {
      assert rest[k] == r[k + 1];
    }
  }

  /** Any leftmost, non-overlapping list of matches is the one the scan finds. */
  lemma {:induction false} LeftmostIsUnique(len: nat, at: nat -> Option<nat>, i: nat, sp: seq<Span>)
    requires Matcher(len, at)
    requires Leftmost(len, at, i, sp)
    ensures sp == ScanWith(len, at, i)
    decreases len - i
  {
    if i >= len {
    } else if at(i).None? {
      assert ScanWith(len, at, i) == ScanWith(len, at, i + 1);
      LeftmostSkip(len, at, i, sp);
      LeftmostIsUnique(len, at, i + 1, sp);
    } else {
      LeftmostHead(len, at, i, sp);
      LeftmostTail(len, at, i, sp);
      LeftmostIsUnique(len, at, i + at(i).value, sp[1..]);
      ScanFromMatch(len, at, i, sp);
    }
  }

  /** A list that starts with the match at `i` and continues with the scan
      behind it is the scan from `i`. */
  lemma ScanFromMatch(len: nat, at: nat -> Option<nat>, i: nat, sp: seq<Span>)
    requires Matcher(len, at) && i < len && at(i).Some?
    requires sp != [] && sp[0] == Span(i, i + at(i).value)
    requires sp[1..] == ScanWith(len, at, i + at(i).value)
    ensures sp == ScanWith(len, at, i)
  {
    assert sp == [sp[0]] + sp[1..];
  }

  lemma LeftmostSkip(len: nat, at: nat -> Option<nat>, i: nat, sp: seq<Span>)
    requires Leftmost(len, at, i, sp) && at(i).None?
    ensures Leftmost(len, at, i + 1, sp)
  {
    assert Matches(len, at, i + 1, sp) by {
      forall k | 0 <= k < |sp| ensures i + 1 <= sp[k].start {
        assert sp[k].start != i;
      }
    }
  }

  lemma LeftmostHead(len: nat, at: nat -> Option<nat>, i: nat, sp: seq<Span>)
    requires Leftmost(len, at, i, sp) && i < len && at(i).Some?
    ensures sp != [] && sp[0] == Span(i, i + at(i).value)
  {
    assert !Uncovered(sp, i);
    var k :| 0 <= k < |sp| && sp[k].start <= i < sp[k].end;
    assert k == 0;
  }

  lemma LeftmostTail(len: nat, at: nat -> Option<nat>, i: nat, sp: seq<Span>)
    requires Leftmost(len, at, i, sp) && sp != [] && sp[0].start == i
    ensures Leftmost(len, at, sp[0].end, sp[1..])
  {
    var rest := sp[1..];
    var j := sp[0].end;
    assert Matches(len, at, j, rest) by {
      forall k | 0 <= k < |rest|
        ensures j <= rest[k].start < rest[k].end <= len && at(rest[k].start) == Some(rest[k].end - rest[k].start)
      {
        assert rest[k] == sp[k + 1];
      }
    }
    assert Disjoint(rest) by {
      forall k, l | 0 <= k < l < |rest| ensures rest[k].end <= rest[l].start {
        assert rest[k] == sp[k + 1] && rest[l] == sp[l + 1];
      }
    }
    assert NoneMissed(len, at, j, rest) by {
      forall p | j <= p < len && Uncovered(rest, p)
        ensures at(p).None?
      {
        assert Uncovered(sp, p) by {
          forall k | 0 <= k < |sp| ensures !(sp[k].start <= p < sp[k].end) {
            if k > 0 { assert sp[k] == rest[k - 1]; }
          }
        }
      }
    }
  }

  /** The placeholder pattern as a matcher over `t`. */
  function PatternAt(t: string): (at: nat -> Option<nat>)
    ensures Matcher(|t|, at)
  {
    p => TokenAt(t, p)
  }

  /** The matches of the placeholder pattern in `t`, from position `i` on. */
  function Scan(t: string, i: nat): seq<Span> {
    ScanWith(|t|, PatternAt(t), i)
  }

  /** The texts of the spans. */
  function Texts(t: string, sp: seq<Span>): (r: seq<string>)
    requires forall k :: 0 <= k < |sp| ==> sp[k].start <= sp[k].end <= |t|
    ensures |r| == |sp| && forall k :: 0 <= k < |r| ==> r[k] == t[sp[k].start..sp[k].end]
  {
    seq(|sp|, k requires 0 <= k < |sp| => t[sp[k].start..sp[k].end])
  }

  /** `re.FindAllString(text, -1)` for the placeholder pattern. */
  function Tokens(t: string): (r: seq<string>)
    ensures forall k :: 0 <= k < |r| ==> IsToken(r[k])
  {
    var sp := Scan(t, 0);
    ScanIsLeftmost(|t|, PatternAt(t), 0);
    var r := Texts(t, sp);
    assert forall k :: 0 <= k < |r| ==> IsToken(r[k]) by {
      forall k | 0 <= k < |r| ensures IsToken(r[k]) {
        assert PatternAt(t)(sp[k].start) == TokenAt(t, sp[k].start);
        TokenAtShape(t, sp[k].start);
      }
    }
    r
  }

  /** No token parses to a negative index, so expansion never reaches the
      panicking `Get`. */
  predicate Expandable(toks: seq<string>) {
    forall k :: 0 <= k < |toks| ==> toks[k] != [] && !NegativeIndex(toks[k])
  }

  /** None of the tokens occurs in the text. */
  predicate NoneOccurs(text: string, toks: seq<string>) {
    forall k :: 0 <= k < |toks| ==> Absent(text, toks[k])
  }

  /** The loop of `expandVars`: each token, in the order found, is replaced
      everywhere in the current text by its expansion. Tokens that occur
      nowhere in the text leave it as it is. */
  function ReplaceEach(text: string, toks: seq<string>, args: seq<string>): (r: string)
    requires Expandable(toks)
    ensures NoneOccurs(text, toks) ==> r == text
    decreases |toks|
  {
    if toks == [] then text
    else
      var next := ReplaceAll(text, toks[0], ExpandVar(toks[0], args));
      if NoneOccurs(text, toks) then
        NoneOccursRest(text, toks, ExpandVar(toks[0], args));
        ReplaceEach(next, toks[1..], args)
      else
        ReplaceEach(next, toks[1..], args)
  }

  /** When no token occurs, replacing the first leaves the text, in which the
      others do not occur either. */
  lemma NoneOccursRest(text: string, toks: seq<string>, rep: string)
    requires toks != [] && toks[0] != [] && NoneOccurs(text, toks)
    ensures ReplaceAll(text, toks[0], rep) == text
    ensures NoneOccurs(text, toks[1..])
  {
    ReplaceAllAbsent(text, toks[0], rep);
    var rest := toks[1..];
    forall k | 0 <= k < |rest| ensures Absent(text, rest[k]) {
      assert rest[k] == toks[k + 1];
    }
  }

  /** `expandVars`. A text without `$`, or whose every token fails to
      parse, comes back unchanged. */
  function ExpandVars(text: string, args: seq<string>): (r: string)
    requires Expandable(Tokens(text))
    ensures '$' !in text ==> r == text
    ensures (forall k :: 0 <= k < |Tokens(text)| ==> ParseVar(Tokens(text)[k]).None?) ==> r == text
  {
    TokensEmptyIff(text);
    if forall k :: 0 <= k < |Tokens(text)| ==> ParseVar(Tokens(text)[k]).None? then
      MalformedKept(text, Tokens(text), args);
      ReplaceEach(text, Tokens(text), args)
    else
      ReplaceEach(text, Tokens(text), args)
  }

  /** With a single token, that token is replaced everywhere by its
      expansion. */
  lemma ExpandOneToken(t: string, a: string, args: seq<string>)
    requires Tokens(t) == [a]
    requires a != [] && !NegativeIndex(a)
    ensures Expandable(Tokens(t))
    ensures ExpandVars(t, args) == ReplaceAll(t, a, ExpandVar(a, args))
  {
    assert Expandable(Tokens(t)) by {
      assert Tokens(t)[0] == a;
    }
    ReplaceEachOne(t, Tokens(t), args);
  }

  lemma ReplaceEachOne(text: string, toks: seq<string>, args: seq<string>)
    requires |toks| == 1 && Expandable(toks)
    ensures ReplaceEach(text, toks, args) == ReplaceAll(text, toks[0], ExpandVar(toks[0], args))
  {
    assert toks[1..] == [];
  }

  /** With exactly two tokens, the first is replaced everywhere and then the
      second, each by its own expansion. */
  lemma ExpandTwoTokens(t: string, a: string, b: string, args: seq<string>)
    requires Tokens(t) == [a, b]
    requires a != [] && b != [] && !NegativeIndex(a) && !NegativeIndex(b)
    ensures Expandable(Tokens(t))
    ensures ExpandVars(t, args) == ReplaceAll(ReplaceAll(t, a, ExpandVar(a, args)), b, ExpandVar(b, args))
  {
    ExpandableTwo(Tokens(t), a, b);
    ReplaceEachTwo(t, Tokens(t), args);
  }

  lemma ExpandableTwo(toks: seq<string>, a: string, b: string)
    requires toks == [a, b]
    requires a != [] && b != [] && !NegativeIndex(a) && !NegativeIndex(b)
    ensures Expandable(toks)
  {
    forall k | 0 <= k < |toks| ensures toks[k] != [] && !NegativeIndex(toks[k]) {
      if k == 0 {
        assert toks[k] == a;
      } else {
        assert toks[k] == b;
      }
    }
  }

  lemma ReplaceEachTwo(text: string, toks: seq<string>, args: seq<string>)
    requires |toks| == 2 && Expandable(toks)
    ensures ReplaceEach(text, toks, args) ==
      ReplaceAll(ReplaceAll(text, toks[0], ExpandVar(toks[0], args)), toks[1], ExpandVar(toks[1], args))
  {
    var rest := toks[1..];
    assert rest[0] == toks[1];
    ReplaceEachCons(text, toks, args);
    ReplaceEachOne(ReplaceAll(text, toks[0], ExpandVar(toks[0], args)), rest, args);
  }

  /** The loop replaces the first token and goes on with the others. */
  lemma ReplaceEachCons(text: string, toks: seq<string>, args: seq<string>)
    requires toks != [] && Expandable(toks)
    ensures Expandable(toks[1..])
    ensures ReplaceEach(text, toks, args) ==
      ReplaceEach(ReplaceAll(text, toks[0], ExpandVar(toks[0], args)), toks[1..], args)
  {
    assert forall k :: 0 <= k < |toks| - 1 ==> toks[1..][k] == toks[k + 1];
  }

  /** The tokens of `t` are the texts of any leftmost list of matches. */
  lemma TokensOf(t: string, sp: seq<Span>)
    requires Leftmost(|t|, PatternAt(t), 0, sp)
    ensures forall k :: 0 <= k < |sp| ==> sp[k].start <= sp[k].end <= |t|
    ensures Tokens(t) == Texts(t, sp)
  {
    LeftmostIsUnique(|t|, PatternAt(t), 0, sp);
  }

  /** A text has no token exactly when the pattern matches at no position. */
  lemma TokensEmptyIff(t: string)
    ensures Tokens(t) == [] <==> forall p :: 0 <= p < |t| ==> TokenAt(t, p).None?
  {
    var at := PatternAt(t);
    assert forall p :: at(p) == TokenAt(t, p);
    ScanIsLeftmost(|t|, at, 0);
    if forall p :: 0 <= p < |t| ==> TokenAt(t, p).None? {
      LeftmostIsUnique(|t|, at, 0, []);
    } else {
      var p :| 0 <= p < |t| && TokenAt(t, p).Some?;
      assert !Uncovered(Scan(t, 0), p);
    }
  }

  /** A text without `$` holds no token and expands to itself. */
  lemma NoDollarUnchanged(t: string, args: seq<string>)
    requires '$' !in t
    ensures Tokens(t) == []
    ensures Expandable(Tokens(t)) && ExpandVars(t, args) == t
  {
    TokensEmptyIff(t);
  }

  /** A text where the pattern matches nowhere, such as one whose every `$`
      is followed by neither a digit nor a `{` closed on its line, expands to
      itself. */
  lemma NoTokenUnchanged(t: string, args: seq<string>)
    requires forall p :: 0 <= p < |t| ==> TokenAt(t, p).None?
    ensures Tokens(t) == []
    ensures Expandable(Tokens(t)) && ExpandVars(t, args) == t
  {
    TokensEmptyIff(t);
  }

  /** Tokens that do not parse are kept verbatim. */
  lemma {:induction false} MalformedKept(text: string, toks: seq<string>, args: seq<string>)
    requires forall k :: 0 <= k < |toks| ==> toks[k] != [] && ParseVar(toks[k]).None?
    ensures Expandable(toks) && ReplaceEach(text, toks, args) == text
    decreases |toks|
  {
    if toks != [] {
      var v := toks[0];
      assert ExpandVar(v, args) == v;
      ReplaceAllSelf(text, v);
      MalformedKept(text, toks[1..], args);
    }
  }

  /** `$d` names argument `d`, with an empty default. */
  lemma ParseDollarDigit(d: char)
    requires IsAsciiDigit(d)
    ensures ParseVar(['$', d]) == Some(Var(d as int - '0' as int, ""))
  {
    assert ['$', d] == "$" + [d];
    UnwrapDigits([d]);
    ParseIntDigit(d);
    ParseVarSingle(['$', d], [d]);
  }

  /** A token without `:` reads its whole unwrapped text as the index. */
  lemma ParseVarSingle(v: string, inner: string)
    requires Split(Unwrap(v), ":") == [inner]
    ensures ParseVar(v) == if ParseInt(inner).Some? then Some(Var(ParseInt(inner).value, "")) else None
  {
  }

  /** `$n` with a decimal number `n` reads index `n` and has an empty
      default (the token scanner never produces such a token for `n > 9`, but
      `parseVar` accepts it). */
  lemma ParseDollarNumber(n: nat)
    requires n <= MaxInt64
    ensures ParseVar("$" + Decimal(n)) == Some(Var(n, ""))
  {
    UnwrapDecimal(n);
    ParseDecimal(n);
    ParseVarSingle("$" + Decimal(n), Decimal(n));
  }

  lemma UnwrapDecimal(n: nat)
    ensures Split(Unwrap("$" + Decimal(n)), ":") == [Decimal(n)]
  {
    UnwrapDigits(Decimal(n));
  }

  /** `$` and a run of decimal digits unwraps to the digits, in one piece. */
  lemma UnwrapDigits(d: string)
    requires d != [] && forall k :: 0 <= k < |d| ==> '0' <= d[k] <= '9'
    ensures Split(Unwrap("$" + d), ":") == [d]
  {
    assert TrimPrefix("$" + d, "$") == d by {
      TrimPrefixOf("$", d);
    }
    assert Trim(d, "{}") == d by {
      assert '0' <= d[0] <= '9' && '0' <= d[|d| - 1] <= '9';
      assert d[0] !in "{}" && d[|d| - 1] !in "{}";
    }
    assert ':' !in d by {
      forall k | 0 <= k < |d| ensures d[k] != ':' {
        assert '0' <= d[k] <= '9';
      }
    }
    SplitWithoutSeparator(d, ':');
  }

  /** `${n:x}` reads its index from `n` and its default from `x` up to the
      next `:`. */
  lemma ParseBracedWithDefault(n: string, x: string)
    requires ':' !in n && '}' !in n && '}' !in x
    requires n == [] || n[0] != '{'
    requires x == [] || x[|x| - 1] != '{'
    ensures var v := ParseVar("${" + (n + ":" + x) + "}");
      && (v.Some? <==> ParseInt(n).Some?)
      && (v.Some? ==> v.value == Var(ParseInt(n).value, Split(x, ":")[0]))
  {
    BracedPieces(n, x);
    FromTwoPieces(n, Split(x, ":"));
  }

  /** The pieces of `${n:x}` are `n` and the pieces of `x`. */
  lemma BracedPieces(n: string, x: string)
    requires ':' !in n && '}' !in n && '}' !in x
    requires n == [] || n[0] != '{'
    requires x == [] || x[|x| - 1] != '{'
    ensures Split(Unwrap("${" + (n + ":" + x) + "}"), ":") == [n] + Split(x, ":")
  {
    var body := n + ":" + x;
    ColonBody(n, x, body);
    UnwrapBraced(body);
  }

  /** `n:x` has no brace at either end and splits into `n` and the pieces
      of `x`. */
  lemma ColonBody(n: string, x: string, body: string)
    requires ':' !in n && '}' !in n && '}' !in x && body == n + ":" + x
    requires n == [] || n[0] != '{'
    requires x == [] || x[|x| - 1] != '{'
    ensures body != [] && body[0] !in "{}" && body[|body| - 1] !in "{}"
    ensures Split(body, ":") == [n] + Split(x, ":")
  {
    if n == [] { assert body[0] == ':'; } else { assert body[0] == n[0]; }
    if x == [] { assert body[|body| - 1] == ':'; } else { assert body[|body| - 1] == x[|x| - 1]; }
    assert body == n + [':'] + x;
    SplitAtFirst(n, ':', x);
  }

  /** Pieces after the first: the index from the first, the default from the
      next. */
  lemma FromTwoPieces(n: string, rest: seq<string>)
    requires rest != []
    ensures var v := FromPieces([n] + rest);
      && (v.Some? <==> ParseInt(n).Some?)
      && (v.Some? ==> v.value == Var(ParseInt(n).value, rest[0]))
  {
    assert ([n] + rest)[0] == n && ([n] + rest)[1] == rest[0];
  }

  /** Unwrapping `${body}` gives `body` when it neither starts nor ends with
      a brace. */
  lemma UnwrapBraced(body: string)
    requires body != [] && body[0] !in "{}" && body[|body| - 1] !in "{}"
    ensures Unwrap("${" + body + "}") == body
  {
    assert "${" + body + "}" == "$" + ("{" + body + "}");
    TrimPrefixOf("$", "{" + body + "}");
    TrimBraces(body);
  }

  /** `${n}` reads its index from `n` and has an empty default. */
  lemma ParseBraced(n: string)
    requires ':' !in n && '}' !in n
    requires n != [] && n[0] != '{' && n[|n| - 1] != '{'
    ensures var v := ParseVar("${" + n + "}");
      && (v.Some? <==> ParseInt(n).Some?)
      && (v.Some? ==> v.value == Var(ParseInt(n).value, ""))
  {
    UnwrapBraced(n);
    SplitWithoutSeparator(n, ':');
  }

  /** Trimming `{` and `}` from a braced text whose inside neither starts nor
      ends with a brace leaves the inside. */
  lemma TrimBraces(body: string)
    requires body != []
    requires body[0] !in "{}" && body[|body| - 1] !in "{}"
    ensures Trim("{" + body + "}", "{}") == body
  {
    var s := "{" + body + "}";
    var tail := body + "}";
    assert s[1..] == tail;
    assert TrimLeftCut(tail, "{}") == tail;
    assert TrimLeftCut(s, "{}") == tail;
    assert tail[..|tail| - 1] == body;
    assert TrimRightCut(tail, "{}") == TrimRightCut(body, "{}");
    assert TrimRightCut(body, "{}") == body;
  }
}
