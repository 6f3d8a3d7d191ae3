/**
 The pure part of `LoadFromDir` in snippet/snippet.go: the directory walk is
 given as the sequence of entries it visits, each with the outcome of
 reading the file. A `.snip` file is parsed into the group named by its base
 name without the extension; a later file with the same name replaces the
 earlier group; the first error stops the walk.
 */
module Loader {
  import opened Wrappers
  import opened GoStrings
  import opened Record
  import opened Parser

  const Ext: string := ".snip"

  /** One visit of the walk callback: the entry's base name, whether it is a
      directory, the error the walk passes in for it, and what reading the
      file would deliver. */
  datatype Entry = Entry(name: string, isDir: bool, walkErr: Option<IoError>, content: Input)

  type Groups = map<string, seq<Snippet>>

  /** A file that becomes a group. */
  predicate Qualifies(e: Entry) {
    e.walkErr.None? && !e.isDir && HasSuffix(e.name, Ext)
  }

  /** The group name of a file. */
  function Key(name: string): (r: string)
    ensures HasSuffix(name, Ext) ==> name == r + Ext
  {
    TrimSuffix(name, Ext)
  }

  /** An entry that stops the walk: the walk reports an error for it, or it
      is a `.snip` file that cannot be read. */
  predicate Fails(e: Entry) {
    e.walkErr.Some? || (!e.isDir && HasSuffix(e.name, Ext) && e.content.err.Some?)
  }

  function ErrorOf(e: Entry): IoError
    requires Fails(e)
  {
    if e.walkErr.Some? then e.walkErr.value else e.content.err.value
  }

  /** The walk callback. */
  function Visit(acc: Groups, e: Entry): (r: Result<Groups, IoError>)
    ensures r.Failure? <==> Fails(e)
    ensures r.Failure? ==> r.error == ErrorOf(e)
    ensures r.Success? && Qualifies(e) ==> r.value == acc[Key(e.name) := Parse(e.content).value]
    ensures r.Success? && !Qualifies(e) ==> r.value == acc
  {
    if e.walkErr.Some? then Failure(e.walkErr.value)
    else if e.isDir then Success(acc)
    else if !HasSuffix(e.name, Ext) then Success(acc)
    else
      match Parse(e.content)
      case Failure(err) => Failure(err)
      case Success(snippets) => Success(acc[Key(e.name) := snippets])
  }

  /** The walk over the remaining entries; groups are only ever added or
      replaced, never removed. */
  function Walk(acc: Groups, entries: seq<Entry>): (r: Result<Groups, IoError>)
    ensures r.Success? ==> acc.Keys <= r.value.Keys
    decreases |entries|
  {
    if entries == [] then Success(acc)
    else
      match Visit(acc, entries[0])
      case Failure(err) => Failure(err)
      case Success(acc') => Walk(acc', entries[1..])
  }

  /** `LoadFromDir`: it fails exactly when some entry stops the walk, and
      then with the error of the first such entry. */
  function LoadFromDir(entries: seq<Entry>): (r: Result<Groups, IoError>)
    ensures r.Failure? <==> !Clean(entries)
    ensures r.Failure? ==> r.error == ErrorOf(entries[FirstFailure(entries).value])
  {
    WalkFailure(map[], entries);
    Walk(map[], entries)
  }

  /** The first entry that stops the walk. */
  function FirstFailure(entries: seq<Entry>): (r: Option<nat>)
    ensures r.Some? ==> r.value < |entries| && Fails(entries[r.value])
    ensures r.Some? ==> forall j :: 0 <= j < r.value ==> !Fails(entries[j])
    ensures r.None? <==> forall j :: 0 <= j < |entries| ==> !Fails(entries[j])
    decreases |entries|
  {
    if entries == [] then None
    else if Fails(entries[0]) then Some(0)
    else
      match FirstFailure(entries[1..])
      case None => None
      case Some(k) => Some(k + 1)
  }

  /** No later file has the same group name as entry `k`. */
  predicate LastWithKey(entries: seq<Entry>, k: nat)
    requires k < |entries|
  {
    forall j :: k < j < |entries| && Qualifies(entries[j]) ==>
      Key(entries[j].name) != Key(entries[k].name)
  }

  /** The walk fails exactly when some entry fails, and with the error of
      the first one. */
  lemma {:induction false} WalkFailure(acc: Groups, entries: seq<Entry>)
    ensures Walk(acc, entries).Failure? <==> FirstFailure(entries).Some?
    ensures Walk(acc, entries).Failure? ==>
      Walk(acc, entries).error == ErrorOf(entries[FirstFailure(entries).value])
    decreases |entries|
  {
    if entries != [] && !Fails(entries[0]) {
      WalkFailure(Visit(acc, entries[0]).value, entries[1..]);
    }
  }

  /** No entry stops the walk. */
  predicate Clean(entries: seq<Entry>) {
    forall j :: 0 <= j < |entries| ==> !Fails(entries[j])
  }

  /** Some `.snip` file among the entries has group name `key`. */
  predicate Named(entries: seq<Entry>, key: string) {
    exists j :: 0 <= j < |entries| && Qualifies(entries[j]) && Key(entries[j].name) == key
  }

  /** One clean step of the walk. */
  lemma WalkCons(acc: Groups, entries: seq<Entry>)
    requires entries != [] && !Fails(entries[0])
    ensures Visit(acc, entries[0]).Success?
    ensures Walk(acc, entries) == Walk(Visit(acc, entries[0]).value, entries[1..])
  {
  }

  /** Without failures, the walk yields the groups already present plus one
      per group name among the `.snip` files. */
  lemma {:induction false} WalkKeys(acc: Groups, entries: seq<Entry>)
    requires Clean(entries)
    ensures Walk(acc, entries).Success?
    ensures forall key :: key in Walk(acc, entries).value <==> key in acc || Named(entries, key)
    decreases |entries|
  {
    if entries != [] {
      var rest := entries[1..];
      var acc' := Visit(acc, entries[0]).value;
      WalkCons(acc, entries);
      CleanTail(entries);
      WalkKeys(acc', rest);
      forall key ensures Named(entries, key) <==> Named(rest, key) || (Qualifies(entries[0]) && Key(entries[0].name) == key) {
        NamedCons(entries, key);
      }
    }
  }

  lemma NamedCons(entries: seq<Entry>, key: string)
    requires entries != []
    ensures Named(entries, key) <==>
      Named(entries[1..], key) || (Qualifies(entries[0]) && Key(entries[0].name) == key)
  {
    var rest := entries[1..];
    if Named(rest, key) {
      var j :| 0 <= j < |rest| && Qualifies(rest[j]) && Key(rest[j].name) == key;
      assert entries[j + 1] == rest[j];
    }
    if Named(entries, key) {
      var j :| 0 <= j < |entries| && Qualifies(entries[j]) && Key(entries[j].name) == key;
      if j > 0 {
        assert rest[j - 1] == entries[j];
      }
    }
  }

  /** Without failures, a group holds what the last `.snip` file of its name
      parses to: later files overwrite earlier ones. */
  lemma {:induction false} WalkLastWins(acc: Groups, entries: seq<Entry>, k: nat)
    requires Clean(entries)
    requires k < |entries| && Qualifies(entries[k]) && LastWithKey(entries, k)
    ensures Walk(acc, entries).Success?
    ensures var m := Walk(acc, entries).value;
      Key(entries[k].name) in m && Parse(entries[k].content) == Success(m[Key(entries[k].name)])
    decreases |entries|
  {
    var rest := entries[1..];
    var acc' := Visit(acc, entries[0]).value;
    WalkCons(acc, entries);
    CleanTail(entries);
    LastWithKeyTail(entries, k);
    if k > 0 {
      WalkLastWins(acc', rest, k - 1);
    } else {
      WalkUntouched(acc', rest, Key(entries[0].name));
    }
  }

  lemma CleanTail(entries: seq<Entry>)
    requires entries != [] && Clean(entries)
    ensures Clean(entries[1..])
  {
    var rest := entries[1..];
    forall j | 0 <= j < |rest| ensures !Fails(rest[j]) {
      assert rest[j] == entries[j + 1];
    }
  }

  /** Entry `k` is still the last of its name among the remaining entries;
      for the first entry, no remaining file has its name. */
  lemma LastWithKeyTail(entries: seq<Entry>, k: nat)
    requires k < |entries| && LastWithKey(entries, k)
    ensures k > 0 ==> entries[1..][k - 1] == entries[k] && LastWithKey(entries[1..], k - 1)
    ensures k == 0 ==> forall j :: 0 <= j < |entries[1..]| && Qualifies(entries[1..][j]) ==>
      Key(entries[1..][j].name) != Key(entries[0].name)
  {
    var rest := entries[1..];
    forall i | 0 <= i < |rest| ensures rest[i] == entries[i + 1] {
    }
  }

  /** Without failures, a group no `.snip` file names keeps its value. */
  lemma {:induction false} WalkUntouched(acc: Groups, entries: seq<Entry>, key: string)
    requires Clean(entries)
    requires key in acc
    requires forall j :: 0 <= j < |entries| && Qualifies(entries[j]) ==> Key(entries[j].name) != key
    ensures Walk(acc, entries).Success?
    ensures key in Walk(acc, entries).value && Walk(acc, entries).value[key] == acc[key]
    decreases |entries|
  {
    if entries != [] {
      var rest := entries[1..];
      var acc' := Visit(acc, entries[0]).value;
      WalkCons(acc, entries);
      forall j | 0 <= j < |rest| ensures !Fails(rest[j]) && (Qualifies(rest[j]) ==> Key(rest[j].name) != key) {
        assert rest[j] == entries[j + 1];
      }
      WalkUntouched(acc', rest, key);
    }
  }

  /** When `LoadFromDir` succeeds, its groups are named by the `.snip`
      files and nothing else. */
  lemma LoadFromDirResult(entries: seq<Entry>)
    ensures LoadFromDir(entries).Success? ==>
      forall key :: key in LoadFromDir(entries).value <==> Named(entries, key)
  {
    if Clean(entries) {
      WalkKeys(map[], entries);
    }
  }

  /** Distinct `.snip` names give distinct group names. */
  lemma KeyInjective(a: string, b: string)
    requires HasSuffix(a, Ext) && HasSuffix(b, Ext)
    requires Key(a) == Key(b)
    ensures a == b
  {
  }
}
