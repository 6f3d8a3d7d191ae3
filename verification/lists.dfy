/**
 The list helpers of snippet/lists.go: indexed reads of a string list, the
 commit of a parsed snippet, and lookup by name.
 */
module Lists {
  import opened Wrappers
  import opened Record

  /** `stringList.Get`. Only the upper bound is guarded: a negative index
      panics in Go, so callers must not pass one. */
  function Get(l: seq<string>, i: int): (r: string)
    requires 0 <= i
    ensures i < |l| ==> r == l[i]
    ensures i >= |l| ==> r == ""
  {
    if i < |l| then l[i] else ""
  }

  /** `list.add`: a missing snippet, or one without body lines, is dropped;
      anything else is appended behind the untouched earlier entries. */
  function Add(l: seq<Snippet>, s: Option<Snippet>): (r: seq<Snippet>)
    ensures |l| <= |r| <= |l| + 1 && r[..|l|] == l
    ensures |r| == |l| + 1 <==> s.Some? && s.value.body != []
    ensures |r| == |l| + 1 ==> r[|l|] == s.value
  {
    if s.None? || s.value.body == [] then l else l + [s.value]
  }

  /** `list.Find`: the position of the first snippet whose name is `name`
      (the Go code returns that element itself). The alias is not
      consulted. */
  function Find(l: seq<Snippet>, name: string): (r: Option<nat>)
    ensures r.Some? ==> r.value < |l| && l[r.value].name == name
    ensures r.Some? ==> forall j :: 0 <= j < r.value ==> l[j].name != name
    ensures r.None? <==> forall j :: 0 <= j < |l| ==> l[j].name != name
    decreases |l|
  {
    if l == [] then None
    else if l[0].name == name then Some(0)
    else
      match Find(l[1..], name)
      case None => None
      case Some(k) => Some(k + 1)
  }

  /** The names of the snippets, in order. */
  function Names(l: seq<Snippet>): (r: seq<string>)
    ensures |r| == |l| && forall k :: 0 <= k < |l| ==> r[k] == l[k].name
  {
    seq(|l|, k requires 0 <= k < |l| => l[k].name)
  }

  /** Lookup depends on the names alone: lists that agree on their names,
      whatever their aliases, abbreviations and bodies, answer alike. */
  lemma {:induction false} FindSeesOnlyNames(l: seq<Snippet>, l': seq<Snippet>, name: string)
    requires Names(l) == Names(l')
    ensures Find(l, name) == Find(l', name)
    decreases |l|
  {
    if l != [] {
      assert l[0].name == Names(l)[0] == Names(l')[0] == l'[0].name;
      assert Names(l[1..]) == Names(l)[1..];
      assert Names(l'[1..]) == Names(l')[1..];
      FindSeesOnlyNames(l[1..], l'[1..], name);
    }
  }

  /** A name that only occurs as an alias is not found. */
  lemma FindIgnoresAlias(l: seq<Snippet>, alias: string)
    requires exists k :: 0 <= k < |l| && l[k].alias == alias
    requires forall k :: 0 <= k < |l| ==> l[k].name != alias
    ensures Find(l, alias) == None
  {
  }
}
