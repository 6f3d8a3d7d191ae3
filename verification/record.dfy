/**
 The snippet record of snippet/snippet.go and its `String()` rendering:
 body lines joined by newlines after the common left margin is cut away.
 */
module Record {
  import opened GoStrings

  /** One parsed template. `bodyMinIndent` is the left margin `String()` cuts
      from every non-blank body line. */
  datatype Snippet = Snippet(
    name: string,
    abbr: string,
    alias: string,
    body: seq<string>,
    bodyMinIndent: int)

  /** A line whose `TrimSpace` is empty. */
  predicate Blank(l: string) {
    TrimSpace(l) == []
  }

  /** Every non-blank body line is long enough for `String()` to cut the margin
      off it; otherwise the Go slice expression panics. */
  predicate Sliceable(s: Snippet) {
    forall k :: 0 <= k < |s.body| ==>
      (s.bodyMinIndent > 0 && !Blank(s.body[k]) ==> s.bodyMinIndent <= |s.body[k]|)
  }

  /** The margin is non-negative and every non-blank body line starts with at
      least that many spaces. */
  predicate Indented(s: Snippet) {
    && s.bodyMinIndent >= 0
    && forall k :: 0 <= k < |s.body| ==>
         (!Blank(s.body[k]) ==> s.bodyMinIndent <= LeadingSpaces(s.body[k]))
  }

  /** One line as `String()` emits it: a blank line unchanged, any other
      line without its margin, which is all spaces when the line is indented
      at least that far. */
  function StripLine(l: string, margin: int): (r: string)
    requires margin > 0 && !Blank(l) ==> margin <= |l|
    ensures Blank(l) ==> r == l
    ensures !Blank(l) && 0 <= margin <= LeadingSpaces(l) ==> l == Spaces(margin) + r
  {
    if margin > 0 && !Blank(l) then
      assert margin <= LeadingSpaces(l) ==> l[..margin] == Spaces(margin);
      l[margin..]
    else l
  }

  /** The body lines as `String()` emits them, one for one. */
  function StripLines(body: seq<string>, margin: int): (r: seq<string>)
    requires forall k :: 0 <= k < |body| ==> (margin > 0 && !Blank(body[k]) ==> margin <= |body[k]|)
    ensures |r| == |body|
    ensures forall k :: 0 <= k < |r| ==> r[k] == StripLine(body[k], margin)
    ensures forall k :: 0 <= k < |r| && Blank(body[k]) ==> r[k] == body[k]
    ensures forall k :: 0 <= k < |r| && !Blank(body[k]) && 0 <= margin <= LeadingSpaces(body[k]) ==>
      body[k] == Spaces(margin) + r[k]
  {
    seq(|body|, k requires 0 <= k < |body| => StripLine(body[k], margin))
  }

  /** How many characters `String()` cuts from a non-blank line: the margin,
      or nothing when the margin is not positive. */
  function CutWidth(margin: int): nat {
    if margin > 0 then margin else 0
  }

  /** The number of non-blank lines. */
  function NonBlankCount(body: seq<string>): nat
    decreases |body|
  {
    if body == [] then 0 else (if Blank(body[0]) then 0 else 1) + NonBlankCount(body[1..])
  }

  /** `snippet.String()`: the stripped lines joined by newlines, so the text
      is the body's characters, less the margin of every non-blank line, plus
      one newline between neighbouring lines. */
  function Text(s: Snippet): (r: string)
    requires Sliceable(s)
    ensures s.body != [] ==>
      |r| + CutWidth(s.bodyMinIndent) * NonBlankCount(s.body) == TotalLength(s.body) + |s.body| - 1
  {
    StripLinesLength(s.body, s.bodyMinIndent);
    Join(StripLines(s.body, s.bodyMinIndent), "\n")
  }

  /** Stripping shortens every non-blank line by the cut width and keeps
      every blank one. */
  lemma {:induction false} StripLinesLength(body: seq<string>, margin: int)
    requires forall k :: 0 <= k < |body| ==> (margin > 0 && !Blank(body[k]) ==> margin <= |body[k]|)
    ensures TotalLength(StripLines(body, margin)) + CutWidth(margin) * NonBlankCount(body) == TotalLength(body)
    decreases |body|
  {
    if body != [] {
      var r := StripLines(body, margin);
      var rest := body[1..];
      StripLinesTail(body, margin);
      StripLinesLength(rest, margin);
      var b := if Blank(body[0]) then 0 else 1;
      assert TotalLength(r) == |r[0]| + TotalLength(StripLines(rest, margin));
      assert NonBlankCount(body) == b + NonBlankCount(rest);
      StripLineLength(body[0], margin);
      Distribute(CutWidth(margin), b, NonBlankCount(rest));
    }
  }

  lemma StripLinesTail(body: seq<string>, margin: int)
    requires body != []
    requires forall k :: 0 <= k < |body| ==> (margin > 0 && !Blank(body[k]) ==> margin <= |body[k]|)
    ensures StripLines(body, margin)[1..] == StripLines(body[1..], margin)
  {
    var r := StripLines(body, margin);
    var t := StripLines(body[1..], margin);
    forall k | 0 <= k < |t| ensures r[1..][k] == t[k] {
      assert body[1..][k] == body[k + 1];
    }
  }

  lemma StripLineLength(l: string, margin: int)
    requires margin > 0 && !Blank(l) ==> margin <= |l|
    ensures |StripLine(l, margin)| + CutWidth(margin) * (if Blank(l) then 0 else 1) == |l|
  {
  }

  lemma Distribute(c: nat, b: nat, n: nat)
    ensures c * (b + n) == c * b + c * n
  {
  }

  /** The margin invariant is enough for `String()` never to slice out of range. */
  lemma IndentedIsSliceable(s: Snippet)
    requires Indented(s)
    ensures Sliceable(s)
  {
  }

  /** The text's lines are the body lines in order; a blank line is kept as it
      is, a non-blank one loses exactly `bodyMinIndent` characters, all spaces. */
  lemma TextLines(s: Snippet)
    requires Indented(s)
    requires s.body != []
    requires forall k :: 0 <= k < |s.body| ==> '\n' !in s.body[k]
    ensures Sliceable(s)
    ensures var lines := Split(Text(s), "\n");
      && |lines| == |s.body|
      && forall k :: 0 <= k < |lines| ==>
           if Blank(s.body[k]) then lines[k] == s.body[k]
           else s.body[k] == Spaces(s.bodyMinIndent) + lines[k]
  {
    var m := s.bodyMinIndent;
    var parts := StripLines(s.body, m);
    forall k | 0 <= k < |parts|
      ensures '\n' !in parts[k]
    {
      var l := s.body[k];
      if !Blank(l) && m > 0 {
        assert parts[k] == l[m..];
        assert forall j :: 0 <= j < |parts[k]| ==> parts[k][j] == l[m + j];
      }
    }
    SplitOfJoin(parts, '\n');
  }

  /** A line indented by `n` spaces, `n` at least the margin `m`, loses exactly
      `m` of them. */
  lemma StripIndented(l: string, m: nat, n: nat, w: string)
    requires 0 < m <= n && w != [] && Trimmed(w) && l == Spaces(n) + w
    ensures !Blank(l) && StripLine(l, m) == Spaces(n - m) + w
  {
    IndentedWord(n, w);
    DropSpaces(n, m, w);
  }

  lemma DropSpaces(n: nat, m: nat, w: string)
    requires m <= n
    ensures (Spaces(n) + w)[m..] == Spaces(n - m) + w
  {
    var l := Spaces(n) + w;
    assert forall k :: 0 <= k < |l| - m ==> l[m..][k] == (Spaces(n - m) + w)[k];
  }

  /** A two-line body renders as its two stripped lines around one newline. */
  lemma TextOfTwoLines(s: Snippet)
    requires Sliceable(s) && |s.body| == 2
    ensures Text(s) == StripLine(s.body[0], s.bodyMinIndent) + "\n" + StripLine(s.body[1], s.bodyMinIndent)
  {
    var parts := StripLines(s.body, s.bodyMinIndent);
    assert parts[1..] == [parts[1]];
    assert Join(parts[1..], "\n") == parts[1];
  }
}
