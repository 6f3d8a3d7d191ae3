/**
 The subset of Go's `strings` package the snippet core relies on, over
 strings seen as sequences of runes (`seq<char>`).
 */
module GoStrings {

  /** Go's `unicode.IsSpace`: the characters with the Unicode White_Space property. */
  predicate IsSpace(c: char) {
    || ('\t' <= c <= '\r')
    || c == ' '
    || c == '\U{85}'
    || c == '\U{A0}'
    || c == '\U{1680}'
    || ('\U{2000}' <= c <= '\U{200A}')
    || c == '\U{2028}'
    || c == '\U{2029}'
    || c == '\U{202F}'
    || c == '\U{205F}'
    || c == '\U{3000}'
  }

  /** Every character of `s` is white space. */
  predicate AllSpace(s: string) {
    forall k :: 0 <= k < |s| ==> IsSpace(s[k])
  }

  /** No character of `s` is white space. */
  predicate NoSpace(s: string) {
    forall k :: 0 <= k < |s| ==> !IsSpace(s[k])
  }

  /** `s` neither starts nor ends with white space, as `TrimSpace` leaves it. */
  predicate Trimmed(s: string) {
    s == [] || (!IsSpace(s[0]) && !IsSpace(s[|s| - 1]))
  }

  predicate HasPrefix(s: string, prefix: string) {
    |prefix| <= |s| && s[..|prefix|] == prefix
  }

  predicate HasSuffix(s: string, suffix: string) {
    |suffix| <= |s| && s[|s| - |suffix|..] == suffix
  }

  /** `strings.TrimPrefix`: drops `prefix` once if `s` starts with it. */
  function TrimPrefix(s: string, prefix: string): (r: string)
    ensures HasPrefix(s, prefix) ==> s == prefix + r
    ensures !HasPrefix(s, prefix) ==> r == s
  {
    if HasPrefix(s, prefix) then s[|prefix|..] else s
  }

  lemma TrimPrefixOf(prefix: string, rest: string)
    ensures TrimPrefix(prefix + rest, prefix) == rest
  {
    assert (prefix + rest)[..|prefix|] == prefix;
    assert (prefix + rest)[|prefix|..] == rest;
  }

  /** `strings.TrimSuffix`: drops `suffix` once if `s` ends with it. */
  function TrimSuffix(s: string, suffix: string): (r: string)
    ensures HasSuffix(s, suffix) ==> s == r + suffix
    ensures !HasSuffix(s, suffix) ==> r == s
  {
    if HasSuffix(s, suffix) then s[..|s| - |suffix|] else s
  }

  /** Leading white space removed: `s` is some white space followed by `r`. */
  function TrimLeftSpace(s: string): (r: string)
    ensures |r| <= |s| && r == s[|s| - |r|..]
    ensures forall k :: 0 <= k < |s| - |r| ==> IsSpace(s[k])
    ensures r == [] || !IsSpace(r[0])
    decreases |s|
  {
    if s != [] && IsSpace(s[0]) then TrimLeftSpace(s[1..]) else s
  }

  /** Trailing white space removed: `s` is `r` followed by some white space. */
  function TrimRightSpace(s: string): (r: string)
    ensures |r| <= |s| && forall k :: 0 <= k < |r| ==> r[k] == s[k]
    ensures forall k :: |r| <= k < |s| ==> IsSpace(s[k])
    ensures r == [] || !IsSpace(r[|r| - 1])
    decreases |s|
  {
    if s != [] && IsSpace(s[|s| - 1]) then TrimRightSpace(s[..|s| - 1]) else s
  }

  /** `strings.TrimSpace`: `s` without its leading and trailing white space. */
  function TrimSpace(s: string): (r: string)
    ensures Trimmed(r)
    ensures r == [] <==> AllSpace(s)
    ensures Trimmed(s) ==> r == s
    decreases |s|
  {
    if s != [] && IsSpace(s[0]) then
      TrimSpace(s[1..])
    else if s != [] && IsSpace(s[|s| - 1]) then
      TrimSpace(s[..|s| - 1])
    else
      s
  }

  /** `TrimSpace` is `TrimLeftSpace` followed by `TrimRightSpace`. */
  lemma {:induction false} TrimSpaceBothSides(s: string)
    ensures TrimSpace(s) == TrimRightSpace(TrimLeftSpace(s))
    decreases |s|
  {
    if s != [] && IsSpace(s[0]) {
      TrimSpaceBothSides(s[1..]);
    } else if s != [] && IsSpace(s[|s| - 1]) {
      var init := s[..|s| - 1];
      assert init != [] && init[0] == s[0];
      TrimSpaceBothSides(init);
    }
  }

  /** `r` sits in `s` between two runs of white space. */
  predicate SpacedInfix(s: string, r: string, i: int) {
    0 <= i <= |s| - |r| && AllSpace(s[..i]) && r == s[i..i + |r|] && AllSpace(s[i + |r|..])
  }

  /** `TrimSpace` leaves exactly the part of `s` between a leading and a
      trailing run of white space; with `Trimmed(TrimSpace(s))` neither run
      could be longer. */
  lemma {:induction false} TrimSpaceInfix(s: string)
    ensures exists i :: SpacedInfix(s, TrimSpace(s), i)
    decreases |s|
  {
    if s != [] && IsSpace(s[0]) {
      assert TrimSpace(s) == TrimSpace(s[1..]);
      TrimSpaceInfix(s[1..]);
      SpaceBeforeInfix(s, TrimSpace(s[1..]));
    } else if s != [] && IsSpace(s[|s| - 1]) {
      var init := s[..|s| - 1];
      assert TrimSpace(s) == TrimSpace(init);
      TrimSpaceInfix(init);
      SpaceAfterInfix(s, init, TrimSpace(init));
    } else {
      assert TrimSpace(s) == s;
      assert SpacedInfix(s, s, 0);
    }
  }

  /** A leading white-space character widens the run before the infix. */
  lemma SpaceBeforeInfix(s: string, r: string)
    requires s != [] && IsSpace(s[0])
    requires exists i :: SpacedInfix(s[1..], r, i)
    ensures exists i :: SpacedInfix(s, r, i)
  {
    var i :| SpacedInfix(s[1..], r, i);
    assert s[..i + 1] == [s[0]] + s[1..][..i];
    assert s[i + 1..i + 1 + |r|] == s[1..][i..i + |r|];
    assert s[i + 1 + |r|..] == s[1..][i + |r|..];
    assert SpacedInfix(s, r, i + 1);
  }

  /** A trailing white-space character widens the run after the infix. */
  lemma SpaceAfterInfix(s: string, init: string, r: string)
    requires s != [] && IsSpace(s[|s| - 1]) && init == s[..|s| - 1]
    requires exists i :: SpacedInfix(init, r, i)
    ensures exists i :: SpacedInfix(s, r, i)
  {
    var i :| SpacedInfix(init, r, i);
    assert s[..i] == init[..i];
    assert s[i..i + |r|] == init[i..i + |r|];
    assert s[i + |r|..] == init[i + |r|..] + [s[|s| - 1]];
    assert SpacedInfix(s, r, i);
  }

  /** Number of leading U+0020 characters: `len(s) - len(strings.TrimLeft(s, " "))`. */
  function LeadingSpaces(s: string): (n: nat)
    ensures n <= |s|
    ensures forall k :: 0 <= k < n ==> s[k] == ' '
    ensures n == |s| || s[n] != ' '
    decreases |s|
  {
    if s != [] && s[0] == ' ' then 1 + LeadingSpaces(s[1..]) else 0
  }

  /** `n` copies of U+0020. */
  function Spaces(n: nat): (r: string)
    ensures |r| == n
    ensures forall k :: 0 <= k < n ==> r[k] == ' '
  {
    seq(n, _ => ' ')
  }

  /** Length of the leading run of non-space characters. */
  function WordLength(s: string): (n: nat)
    ensures n <= |s|
    ensures NoSpace(s[..n])
    ensures n == |s| || IsSpace(s[n])
    decreases |s|
  {
    if s == [] || IsSpace(s[0]) then 0
    else
      var n := 1 + WordLength(s[1..]);
      assert s[..n] == [s[0]] + s[1..][..n - 1];
      n
  }

  /** `gaps[0] + words[0] + gaps[1] + ... + words[n - 1] + gaps[n]`. */
  function Weave(gaps: seq<string>, words: seq<string>): string
    requires |gaps| == |words| + 1
    decreases |words|
  {
    if words == [] then gaps[0] else gaps[0] + words[0] + Weave(gaps[1..], words[1..])
  }

  /** `s` consists of the non-empty, space-free `words` separated by the
      white-space runs `gaps`; only the first and the last gap may be empty. */
  predicate SpacedWords(s: string, gaps: seq<string>, words: seq<string>) {
    && |gaps| == |words| + 1
    && (forall k :: 0 <= k < |gaps| ==> AllSpace(gaps[k]))
    && (forall k :: 0 < k < |words| ==> gaps[k] != [])
    && (forall k :: 0 <= k < |words| ==> words[k] != [] && NoSpace(words[k]))
    && Weave(gaps, words) == s
  }

  /** `strings.Fields`: the maximal runs of non-space characters, in order
      (that they are exactly those runs is `FieldsWoven` and `FieldsIff`). */
  function Fields(s: string): (r: seq<string>)
    ensures forall k :: 0 <= k < |r| ==> r[k] != [] && NoSpace(r[k])
    ensures r == [] <==> AllSpace(s)
    decreases |s|
  {
    if s == [] then []
    else if IsSpace(s[0]) then
      var r := Fields(s[1..]);
      assert AllSpace(s) <==> AllSpace(s[1..]) by {
        if AllSpace(s[1..]) {
          forall k | 0 <= k < |s| ensures IsSpace(s[k]) {
            if k > 0 { assert s[k] == s[1..][k - 1]; }
          }
        }
      }
      r
    else
      var n := WordLength(s);
      [s[..n]] + Fields(s[n..])
  }

  /** `Fields` splits `s` into its words, with white space between them. */
  lemma {:induction false} FieldsWoven(s: string)
    ensures exists gaps :: SpacedWords(s, gaps, Fields(s))
    decreases |s|
  {
    if s == [] {
      assert Fields(s) == [];
      assert SpacedWords(s, [[]], []);
    } else if IsSpace(s[0]) {
      assert Fields(s) == Fields(s[1..]);
      FieldsWoven(s[1..]);
      SpacedWordsAfterSpace(s, Fields(s[1..]));
    } else {
      var n := WordLength(s);
      assert Fields(s) == [s[..n]] + Fields(s[n..]);
      FieldsWoven(s[n..]);
      SpacedWordsAfterWord(s, n, Fields(s[n..]));
    }
  }

  /** One more leading white-space character joins the first gap. */
  lemma SpacedWordsAfterSpace(s: string, words: seq<string>)
    requires s != [] && IsSpace(s[0])
    requires exists gaps :: SpacedWords(s[1..], gaps, words)
    ensures exists gaps :: SpacedWords(s, gaps, words)
  {
    var g :| SpacedWords(s[1..], g, words);
    var g' := [[s[0]] + g[0]] + g[1..];
    WeaveGrow(s[0], g, words);
    assert s == [s[0]] + s[1..];
    assert forall k :: 0 < k < |g'| ==> g'[k] == g[k];
    assert SpacedWords(s, g', words);
  }

  /** Prepending a character to the first gap prepends it to the text. */
  lemma WeaveGrow(c: char, gaps: seq<string>, words: seq<string>)
    requires |gaps| == |words| + 1
    ensures Weave([[c] + gaps[0]] + gaps[1..], words) == [c] + Weave(gaps, words)
  {
    var g' := [[c] + gaps[0]] + gaps[1..];
    assert g'[1..] == gaps[1..];
  }

  /** A word at the front, followed by nothing or by white space, is the
      first of the words. */
  lemma SpacedWordsAfterWord(s: string, n: nat, rest: seq<string>)
    requires 0 < n <= |s| && NoSpace(s[..n]) && (n == |s| || IsSpace(s[n]))
    requires rest == [] <==> AllSpace(s[n..])
    requires forall k :: 0 <= k < |rest| ==> rest[k] != [] && NoSpace(rest[k])
    requires exists gaps :: SpacedWords(s[n..], gaps, rest)
    ensures exists gaps :: SpacedWords(s, gaps, [s[..n]] + rest)
  {
    var g :| SpacedWords(s[n..], g, rest);
    var words := [s[..n]] + rest;
    var g' := [[]] + g;
    assert words[1..] == rest && g'[1..] == g;
    assert Weave(g', words) == s[..n] + s[n..];
    assert s[..n] + s[n..] == s;
    assert SpacedWords(s, g', words);
  }

  /** Any split of `s` into words and white-space gaps is the one `Fields`
      finds: the fields are exactly the maximal non-space runs, in order. */
  lemma {:induction false} FieldsUnique(s: string, gaps: seq<string>, words: seq<string>)
    requires SpacedWords(s, gaps, words)
    ensures Fields(s) == words
    decreases |s|
  {
    if words == [] {
      assert s == gaps[0];
    } else if gaps[0] != [] {
      var g' := [gaps[0][1..]] + gaps[1..];
      assert gaps[0] == [gaps[0][0]] + gaps[0][1..];
      WeaveGrow(gaps[0][0], g', words);
      assert [[gaps[0][0]] + g'[0]] + g'[1..] == gaps;
      assert s == [gaps[0][0]] + Weave(g', words);
      assert s[1..] == Weave(g', words);
      assert forall k :: 0 < k < |g'| ==> g'[k] == gaps[k];
      assert AllSpace(g'[0]);
      assert SpacedWords(s[1..], g', words);
      FieldsUnique(s[1..], g', words);
    } else {
      var t := Weave(gaps[1..], words[1..]);
      var w := words[0];
      assert s == w + t;
      assert SpacedWords(t, gaps[1..], words[1..]) by {
        assert forall k :: 0 <= k < |gaps| - 1 ==> gaps[1..][k] == gaps[k + 1];
        assert forall k :: 0 <= k < |words| - 1 ==> words[1..][k] == words[k + 1];
      }
      FieldsUnique(t, gaps[1..], words[1..]);
      if t == [] {
        assert s == w;
        FieldsOfWord(w);
      } else {
        assert IsSpace(t[0]) by {
          if |words| == 1 {
            assert t == gaps[1];
          } else {
            assert t == gaps[1] + words[1] + Weave(gaps[2..], words[2..]);
            assert gaps[1] != [];
          }
        }
        FieldsOfSpaced(w, t);
      }
      assert words == [w] + words[1..];
    }
  }

  /** The fields are characterised by the split into words and gaps. */
  lemma FieldsIff(s: string, words: seq<string>)
    ensures Fields(s) == words <==> exists gaps :: SpacedWords(s, gaps, words)
  {
    FieldsWoven(s);
    if exists gaps :: SpacedWords(s, gaps, words) {
      var g :| SpacedWords(s, g, words);
      FieldsUnique(s, g, words);
    }
  }

  /** Removes every leading character that belongs to `cutset`. */
  function TrimLeftCut(s: string, cutset: string): (r: string)
    ensures |r| <= |s| && r == s[|s| - |r|..]
    ensures forall k :: 0 <= k < |s| - |r| ==> s[k] in cutset
    ensures r == [] || r[0] !in cutset
    decreases |s|
  {
    if s != [] && s[0] in cutset then TrimLeftCut(s[1..], cutset) else s
  }

  /** Removes every trailing character that belongs to `cutset`. */
  function TrimRightCut(s: string, cutset: string): (r: string)
    ensures |r| <= |s| && r == s[..|r|]
    ensures forall k :: |r| <= k < |s| ==> s[k] in cutset
    ensures r == [] || r[|r| - 1] !in cutset
    decreases |s|
  {
    if s != [] && s[|s| - 1] in cutset then TrimRightCut(s[..|s| - 1], cutset) else s
  }

  /** Every character of `s` belongs to `cutset`. */
  predicate AllIn(s: string, cutset: string) {
    forall k :: 0 <= k < |s| ==> s[k] in cutset
  }

  /** `r` sits in `s` between two runs of `cutset` characters. */
  predicate CutInfix(s: string, r: string, i: int, cutset: string) {
    0 <= i <= |s| - |r| && AllIn(s[..i], cutset) && r == s[i..i + |r|] && AllIn(s[i + |r|..], cutset)
  }

  /** `strings.Trim(s, cutset)`: the part of `s` left between a leading and
      a trailing run of `cutset` characters, neither of which can be longer
      (that it is such an infix is `TrimInfix`). */
  function Trim(s: string, cutset: string): (r: string)
    ensures r == [] || (r[0] !in cutset && r[|r| - 1] !in cutset)
    ensures s != [] && s[0] !in cutset && s[|s| - 1] !in cutset ==> r == s
  {
    var left := TrimLeftCut(s, cutset);
    var r := TrimRightCut(left, cutset);
    assert r != [] ==> r[0] == left[0];
    r
  }

  /** What `Trim` keeps is an infix of `s` between two runs of `cutset`. */
  lemma TrimInfix(s: string, cutset: string)
    ensures exists i :: CutInfix(s, Trim(s, cutset), i, cutset)
  {
    var left := TrimLeftCut(s, cutset);
    CutBothEnds(s, left, TrimRightCut(left, cutset), cutset);
    assert CutInfix(s, Trim(s, cutset), |s| - |left|, cutset);
  }

  /** The two cuts of `Trim` leave an infix between runs of `cutset`. */
  lemma CutBothEnds(s: string, left: string, r: string, cutset: string)
    requires |left| <= |s| && left == s[|s| - |left|..]
    requires forall k :: 0 <= k < |s| - |left| ==> s[k] in cutset
    requires |r| <= |left| && r == left[..|r|]
    requires forall k :: |r| <= k < |left| ==> left[k] in cutset
    ensures CutInfix(s, r, |s| - |left|, cutset)
  {
    var i := |s| - |left|;
    assert AllIn(s[..i], cutset) by {
      forall k | 0 <= k < i ensures s[..i][k] in cutset {
        assert s[..i][k] == s[k];
      }
    }
    assert r == left[..|r|];
    assert s[i..i + |r|] == left[..|r|];
    assert s[i + |r|..] == left[|r|..];
    assert AllIn(left[|r|..], cutset) by {
      forall k | 0 <= k < |left| - |r| ensures left[|r|..][k] in cutset {
        assert left[|r|..][k] == left[|r| + k];
      }
    }
  }

  /** `strings.Split(s, sep)` for a non-empty separator: the pieces between
      the leftmost non-overlapping occurrences of `sep`. */
  function Split(s: string, sep: string): (r: seq<string>)
    requires sep != []
    ensures |r| >= 1
    ensures |sep| == 1 ==> forall k :: 0 <= k < |r| ==> sep[0] !in r[k]
    decreases |s|
  {
    if |s| < |sep| then [s]
    else if s[..|sep|] == sep then [[]] + Split(s[|sep|..], sep)
    else
      var rest := Split(s[1..], sep);
      [[s[0]] + rest[0]] + rest[1..]
  }

  /** The number of characters in all the parts together. */
  function TotalLength(parts: seq<string>): nat
    decreases |parts|
  {
    if parts == [] then 0 else |parts[0]| + TotalLength(parts[1..])
  }

  /** `strings.Join`: the parts with one separator between neighbours and
      nothing else added. */
  function Join(parts: seq<string>, sep: string): (r: string)
    ensures parts != [] ==> |r| == TotalLength(parts) + (|parts| - 1) * |sep|
    decreases |parts|
  {
    if parts == [] then []
    else if |parts| == 1 then parts[0]
    else
      var r := parts[0] + sep + Join(parts[1..], sep);
      JoinLength(|parts[0]|, TotalLength(parts[1..]), |parts| - 1, |sep|);
      r
  }

  /** The arithmetic step of the length of `Join`. */
  lemma JoinLength(a: nat, t: nat, n: nat, k: nat)
    requires n >= 1
    ensures a + k + (t + (n - 1) * k) == (a + t) + n * k
  {
  }

  /** `strings.Replace(s, pat, rep, -1)` for a non-empty `pat`: every leftmost
      non-overlapping occurrence of `pat` is replaced by `rep`. A replacement
      as long as the pattern keeps the length, a shorter one never lengthens
      the text and a longer one never shortens it. */
  function ReplaceAll(s: string, pat: string, rep: string): (r: string)
    requires pat != []
    ensures |rep| == |pat| ==> |r| == |s|
    ensures |rep| <= |pat| ==> |r| <= |s|
    ensures |rep| >= |pat| ==> |r| >= |s|
    decreases |s|
  {
    if |s| < |pat| then s
    else if s[..|pat|] == pat then rep + ReplaceAll(s[|pat|..], pat, rep)
    else [s[0]] + ReplaceAll(s[1..], pat, rep)
  }

  lemma JoinCons(c: string, parts: seq<string>, sep: string)
    requires parts != []
    ensures Join([c + parts[0]] + parts[1..], sep) == c + Join(parts, sep)
  {
    var ps := [c + parts[0]] + parts[1..];
    assert ps[1..] == parts[1..];
  }

  /** Replacing every occurrence is splitting at them and joining with the replacement. */
  lemma {:induction false} ReplaceAllIsJoinOfSplit(s: string, pat: string, rep: string)
    requires pat != []
    ensures ReplaceAll(s, pat, rep) == Join(Split(s, pat), rep)
    decreases |s|
  {
    if |s| < |pat| {
    } else if s[..|pat|] == pat {
      ReplaceAllIsJoinOfSplit(s[|pat|..], pat, rep);
      var rest := Split(s[|pat|..], pat);
      assert ([[]] + rest)[1..] == rest;
    } else {
      ReplaceAllIsJoinOfSplit(s[1..], pat, rep);
      JoinCons([s[0]], Split(s[1..], pat), rep);
    }
  }

  /** Joining the pieces with the separator gives the original text back. */
  lemma {:induction false} JoinOfSplit(s: string, sep: string)
    requires sep != []
    ensures Join(Split(s, sep), sep) == s
    decreases |s|
  {
    if |s| < |sep| {
    } else if s[..|sep|] == sep {
      var t := s[|sep|..];
      JoinOfSplit(t, sep);
      JoinEmptyCons(Split(t, sep), sep);
      assert s == sep + t;
    } else {
      JoinOfSplit(s[1..], sep);
      JoinCons([s[0]], Split(s[1..], sep), sep);
      assert s == [s[0]] + s[1..];
    }
  }

  lemma JoinEmptyCons(rest: seq<string>, sep: string)
    requires rest != []
    ensures Join([[]] + rest, sep) == sep + Join(rest, sep)
  {
    assert ([[]] + rest)[1..] == rest;
  }

  /** Replacing a text by itself changes nothing. */
  lemma ReplaceAllSelf(s: string, pat: string)
    requires pat != []
    ensures ReplaceAll(s, pat, pat) == s
  {
    ReplaceAllIsJoinOfSplit(s, pat, pat);
    JoinOfSplit(s, pat);
  }

  /** `pat` occurs nowhere in `s`. */
  predicate Absent(s: string, pat: string)
    decreases |s|
  {
    |s| < |pat| || (s[..|pat|] != pat && Absent(s[1..], pat))
  }

  /** Replacing a pattern that does not occur changes nothing. */
  lemma {:induction false} ReplaceAllAbsent(s: string, pat: string, rep: string)
    requires pat != [] && Absent(s, pat)
    ensures ReplaceAll(s, pat, rep) == s
    decreases |s|
  {
    if |s| >= |pat| {
      ReplaceAllAbsent(s[1..], pat, rep);
      assert s == [s[0]] + s[1..];
    }
  }

  /** `pat` occurs in `s` starting at position `i`. */
  predicate OccursAt(s: string, pat: string, i: int) {
    0 <= i && i + |pat| <= |s| && s[i..i + |pat|] == pat
  }

  /** `Absent` holds exactly when the pattern occurs at no position. */
  lemma {:induction false} AbsentIff(s: string, pat: string)
    requires pat != []
    ensures Absent(s, pat) <==> forall i :: !OccursAt(s, pat, i)
    decreases |s|
  {
    if |s| >= |pat| {
      AbsentIff(s[1..], pat);
      forall i ensures OccursAt(s, pat, i) <==>
        (i == 0 && s[..|pat|] == pat) || (i > 0 && OccursAt(s[1..], pat, i - 1))
      {
        if i > 0 && i + |pat| <= |s| {
          assert s[1..][i - 1..i - 1 + |pat|] == s[i..i + |pat|];
        }
        if i == 0 {
          assert s[..|pat|] == s[0..0 + |pat|];
        }
      }
      if Absent(s, pat) {
        forall i ensures !OccursAt(s, pat, i) {
          if i > 0 {
            assert !OccursAt(s[1..], pat, i - 1);
          }
        }
      } else if s[..|pat|] == pat {
        assert OccursAt(s, pat, 0);
      } else {
        var j :| OccursAt(s[1..], pat, j);
        assert OccursAt(s, pat, j + 1);
      }
    }
  }

  /** The leftmost occurrence is replaced and replacement goes on behind it:
      the text before it, in which no occurrence starts, is kept. With
      `ReplaceAllAbsent` and `AbsentIff` this determines `ReplaceAll` on
      every text. */
  lemma {:induction false} ReplaceAllFirst(x: string, pat: string, y: string, rep: string)
    requires pat != []
    requires forall i :: 0 <= i < |x| ==> !OccursAt(x + pat + y, pat, i)
    ensures ReplaceAll(x + pat + y, pat, rep) == x + rep + ReplaceAll(y, pat, rep)
    decreases |x|
  {
    if x == [] {
      assert x + pat + y == pat + y;
      ReplaceAllHit(pat, y, rep);
    } else {
      NoOccurrenceTail(x, pat, y);
      ReplaceAllFirst(x[1..], pat, y, rep);
      ReplaceAllMiss(x + pat + y, x, pat, rep, rep + ReplaceAll(y, pat, rep));
    }
  }

  /** No occurrence starting inside `x` means none at the front, and none
      starting inside the rest of `x`. */
  lemma NoOccurrenceTail(x: string, pat: string, y: string)
    requires pat != [] && x != []
    requires forall i :: 0 <= i < |x| ==> !OccursAt(x + pat + y, pat, i)
    ensures (x + pat + y)[..|pat|] != pat && (x + pat + y)[1..] == x[1..] + pat + y
    ensures forall i :: 0 <= i < |x[1..]| ==> !OccursAt(x[1..] + pat + y, pat, i)
  {
    var s := x + pat + y;
    var t := x[1..] + pat + y;
    assert s[1..] == t;
    assert !OccursAt(s, pat, 0);
    assert s[..|pat|] == s[0..0 + |pat|];
    forall i | 0 <= i < |x[1..]| ensures !OccursAt(t, pat, i) {
      assert !OccursAt(s, pat, i + 1);
      assert t[i..i + |pat|] == s[i + 1..i + 1 + |pat|];
    }
  }

  /** The inductive step of `ReplaceAllFirst`: a position where the pattern
      does not start is copied. */
  lemma ReplaceAllMiss(s: string, x: string, pat: string, rep: string, tail: string)
    requires pat != [] && x != [] && |s| >= |pat| && s[..|pat|] != pat && s[0] == x[0]
    requires ReplaceAll(s[1..], pat, rep) == x[1..] + tail
    ensures ReplaceAll(s, pat, rep) == x + tail
  {
    assert x == [x[0]] + x[1..];
  }

  /** The first occurrence is the one after a stretch that cannot start one. */
  lemma ReplaceAllAfter(x: string, pat: string, y: string, rep: string)
    requires pat != [] && pat[0] !in x
    ensures ReplaceAll(x + pat + y, pat, rep) == x + rep + ReplaceAll(y, pat, rep)
  {
    forall i | 0 <= i < |x| ensures !OccursAt(x + pat + y, pat, i) {
      assert (x + pat + y)[i..i + |pat|][0] == x[i];
    }
    ReplaceAllFirst(x, pat, y, rep);
  }

  /** An occurrence at the front is replaced. */
  lemma ReplaceAllHit(pat: string, y: string, rep: string)
    requires pat != []
    ensures ReplaceAll(pat + y, pat, rep) == rep + ReplaceAll(y, pat, rep)
  {
    var s := pat + y;
    assert s[..|pat|] == pat && s[|pat|..] == y;
  }

  /** Without an occurrence of the separator there is exactly one piece. */
  lemma {:induction false} SplitWithoutSeparator(s: string, c: char)
    requires c !in s
    ensures Split(s, [c]) == [s]
    decreases |s|
  {
    if |s| >= 1 {
      assert s[..1] != [c] by { assert s[0] != c; }
      SplitWithoutSeparator(s[1..], c);
      assert [s[0]] + s[1..] == s;
    }
  }

  /** The first piece ends at the first occurrence of a one-character separator. */
  lemma {:induction false} SplitAtFirst(a: string, c: char, b: string)
    requires c !in a
    ensures Split(a + [c] + b, [c]) == [a] + Split(b, [c])
    decreases |a|
  {
    var s := a + [c] + b;
    if a == [] {
      assert s[..1] == [c];
      assert s[1..] == b;
    } else {
      assert s[..1] != [c] by { assert s[0] == a[0]; }
      assert s[1..] == a[1..] + [c] + b;
      SplitAtFirst(a[1..], c, b);
      assert [s[0]] + a[1..] == a;
    }
  }

  /** Splitting a join at a one-character separator that no part contains
      gives the parts back. */
  lemma {:induction false} SplitOfJoin(parts: seq<string>, c: char)
    requires parts != []
    requires forall k :: 0 <= k < |parts| ==> c !in parts[k]
    ensures Split(Join(parts, [c]), [c]) == parts
    decreases |parts|
  {
    if |parts| == 1 {
      SplitWithoutSeparator(parts[0], c);
    } else {
      var rest := parts[1..];
      assert forall k :: 0 <= k < |rest| ==> rest[k] == parts[k + 1];
      SplitOfJoin(rest, c);
      assert Join(parts, [c]) == parts[0] + [c] + Join(rest, [c]);
      SplitAtFirst(parts[0], c, Join(rest, [c]));
      assert parts == [parts[0]] + rest;
    }
  }

  /** A run of spaces contains no field; a non-space character starts one. */
  lemma {:induction false} FieldsOfSpaced(w: string, rest: string)
    requires w != [] && NoSpace(w)
    requires rest != [] && IsSpace(rest[0])
    ensures Fields(w + rest) == [w] + Fields(rest)
  {
    var s := w + rest;
    assert WordLength(s) == |w| by {
      var n := WordLength(s);
      assert forall k :: 0 <= k < |w| ==> s[k] == w[k];
      assert s[|w|] == rest[0];
    }
    assert s[..|w|] == w;
    assert s[|w|..] == rest;
  }

  /** A single word is its own only field. */
  lemma FieldsOfWord(w: string)
    requires w != [] && NoSpace(w)
    ensures Fields(w) == [w]
  {
    assert WordLength(w) == |w|;
    assert w[..|w|] == w;
    assert w[|w|..] == [];
  }

  /** Two words separated by one space are two fields. */
  lemma FieldsTwo(a: string, b: string)
    requires a != [] && NoSpace(a) && b != [] && NoSpace(b)
    ensures Fields(a + " " + b) == [a, b]
  {
    assert (" " + b)[1..] == b;
    FieldsOfWord(b);
    FieldsOfSpaced(a, " " + b);
    assert a + " " + b == a + (" " + b);
  }

  /** Indentation before a trimmed word is cut by `TrimSpace` and counted by
      `LeadingSpaces`. */
  lemma IndentedWord(n: nat, w: string)
    requires w != [] && Trimmed(w)
    ensures TrimSpace(Spaces(n) + w) == w
    ensures LeadingSpaces(Spaces(n) + w) == n
    decreases n
  {
    var s := Spaces(n) + w;
    if n > 0 {
      assert s[1..] == Spaces(n - 1) + w;
      assert s[|s| - 1] == w[|w| - 1];
      IndentedWord(n - 1, w);
    } else {
      assert s == w;
    }
  }

  /** A trimmed line that begins with `keyword` and a space has `keyword` as its
      first field and at least one more field after it. */
  lemma KeywordLine(line: string, keyword: string)
    requires keyword != [] && NoSpace(keyword)
    requires Trimmed(line)
    requires HasPrefix(line, keyword + " ")
    ensures |Fields(line)| >= 2
    ensures Fields(line)[0] == keyword
  {
    var rest := line[|keyword|..];
    assert line == keyword + rest;
    assert rest[0] == ' ';
    FieldsOfSpaced(keyword, rest);
    assert !AllSpace(rest) by {
      assert line[|keyword|] == ' ';
      assert rest[|rest| - 1] == line[|line| - 1];
    }
  }
}
