// Recursive removal of a folder's contents (opos/code_tools/ct_file.h).
//
// A path is the sequence of its components: the first is the text of a drive or share
// prefix, the rest are entry names, which never hold a backslash. A volume maps every
// existing path to its entry. Deleting a file fails when it is read-only, and removing a
// folder fails when it is read-only or not empty.
module FolderRemoval {
  type Path = seq<string>
  datatype Entry = File(readOnly: bool) | Folder(readOnly: bool)
  // How the file system matches a search pattern against an entry name.
  type Matching = (string, string) -> bool
  type Tree = map<Path, Entry>

  const ALL_SUB_FOLDERS: int := -1
  const CURRENT_FOLDER: int := 1

  // ----- Texts and depths -----

  function Text(p: Path): string {
    if p == [] then "" else if |p| == 1 then p[0] else Text(p[..|p| - 1]) + "\\" + p[|p| - 1]
  }

  function Backslashes(s: string): nat {
    if s == "" then 0 else (if s[0] == '\\' then 1 else 0) + Backslashes(s[1..])
  }

  lemma {:induction false} BackslashesConcat(a: string, b: string)
    ensures Backslashes(a + b) == Backslashes(a) + Backslashes(b)
  {
    if a == "" {
      assert a + b == b;
    } else {
      BackslashesConcat(a[1..], b);
      assert (a + b)[1..] == a[1..] + b;
    }
  }

  predicate IsName(n: string) {
    n != "" && n != "." && n != ".." && '\\' !in n
  }

  lemma {:induction false} NoBackslash(n: string)
    requires '\\' !in n
    ensures Backslashes(n) == 0
  {
    if n != "" {
      NoBackslash(n[1..]);
    }
  }

  // The count the comparator sorts by is the depth, up to the constant of the prefix.
  lemma {:induction false} BackslashesAreDepth(p: Path)
    requires p != [] && forall i :: 1 <= i < |p| ==> IsName(p[i])
    ensures Backslashes(Text(p)) == Backslashes(p[0]) + |p| - 1
  {
    if |p| > 1 {
      var front, last := p[..|p| - 1], p[|p| - 1];
      BackslashesAreDepth(front);
      NoBackslash(last);
      BackslashesConcat(Text(front) + "\\", last);
      BackslashesConcat(Text(front), "\\");
      assert Backslashes("\\") == 1 + Backslashes("");
    }
  }

  // The comparator's loop over std::wstring::find.
  method CountBackslashes(s: string) returns (n: nat)
    ensures n == Backslashes(s)
  {
    n := 0;
    var i := 0;
    while i < |s|
      invariant 0 <= i <= |s|
      invariant n + Backslashes(s[i..]) == Backslashes(s)
    {
      if s[i] == '\\' {
        n := n + 1;
      }
      assert s[i..][1..] == s[i + 1..];
      i := i + 1;
    }
  }

  // ----- What a search reports -----

  ghost predicate WellFormed(t: Tree) {
    forall p :: p in t ==>
      && p != []
      && (forall i :: 1 <= i < |p| ==> IsName(p[i]))
      && (|p| > 1 ==> p[..|p| - 1] in t && t[p[..|p| - 1]].Folder?)
  }

  // The names a search steps over: "." and "..", but also ".a" or "."-anything of length two.
  predicate Skipped(name: string) {
    name != "" && name[0] == '.' && |name| <= 2
  }

  predicate WholeFolder(filter: string) { filter == "*" || filter == "\\" }

  predicate Passes(matches: Matching, filter: string, name: string) {
    !Skipped(name) && (WholeFolder(filter) || matches(filter, name))
  }

  ghost predicate Reached(matches: Matching, dir: Path, filter: string, area: int, p: Path) {
    && dir < p
    && (forall i :: |dir| <= i < |p| ==> Passes(matches, filter, p[i]))
    && (area < 0 || |p| - |dir| <= area)
  }

  // Which kinds of entry a search reports.
  datatype Kinds = Kinds(files: bool, folders: bool) {
    predicate Has(e: Entry) { if e.File? then files else folders }
  }

  ghost function Found(t: Tree, matches: Matching, dir: Path, filter: string, area: int, kinds: Kinds): set<Path> {
    set p | p in t && kinds.Has(t[p]) && Reached(matches, dir, filter, area, p)
  }

  function ListedByFileSearch(filter: string, includeFolder: bool): Kinds {
    Kinds(filter != "\\", WholeFolder(filter) && includeFolder)
  }

  function ListedByFolderSearch(filter: string): Kinds {
    Kinds(false, WholeFolder(filter))
  }

  function Elements(xs: seq<Path>): set<Path> { set x | x in xs }

  ghost predicate Lists(xs: seq<Path>, s: set<Path>) {
    && (forall i, j :: 0 <= i < j < |xs| ==> xs[i] != xs[j])
    && (forall x :: x in xs <==> x in s)
  }

  lemma ListsJoin(xs: seq<Path>, ys: seq<Path>, a: set<Path>, b: set<Path>)
    requires Lists(xs, a) && Lists(ys, b) && a !! b
    ensures Lists(xs + ys, a + b)
  {
    forall i, j | 0 <= i < j < |xs + ys| ensures (xs + ys)[i] != (xs + ys)[j] {
      if i < |xs| <= j {
        assert xs[i] in a && ys[j - |xs|] in b;
      }
    }
  }

  lemma {:induction false} PrefixExists(t: Tree, p: Path, k: nat)
    requires WellFormed(t) && p in t && 1 <= k < |p|
    ensures p[..k] in t && t[p[..k]].Folder?
    decreases |p|
  {
    var parent := p[..|p| - 1];
    if k < |parent| {
      PrefixExists(t, parent, k);
      assert parent[..k] == p[..k];
    } else {
      assert p[..k] == parent;
    }
  }

  ghost function Below(t: Tree, dir: Path): set<Path> {
    set p | p in t && dir < p
  }

  lemma BelowShrinks(t: Tree, dir: Path, child: Path)
    requires dir < child && child in t
    ensures Below(t, child) < Below(t, dir)
  {
    assert child in Below(t, dir) && child !in Below(t, child);
    forall p | p in Below(t, child) ensures p in Below(t, dir) {
      assert p[..|dir|] == child[..|dir|] == dir;
    }
  }

  // The part of a search result that lies at or under entry `name` of `dir`.
  ghost function Through(s: set<Path>, dir: Path, name: string): set<Path> {
    set p | p in s && dir < p && p[|dir|] == name
  }

  ghost function ThroughAny(s: set<Path>, dir: Path, names: seq<string>): set<Path> {
    set p | p in s && dir < p && p[|dir|] in names
  }

  lemma ReachedThrough(matches: Matching, dir: Path, filter: string, area: int, name: string, p: Path)
    requires area != 0 && Passes(matches, filter, name)
    requires p != dir + [name]
    ensures Reached(matches, dir, filter, area, p) && p[|dir|] == name
       <==> Reached(matches, dir + [name], filter, area - 1, p)
  {
    var child := dir + [name];
    if dir < p && p[|dir|] == name {
      assert p[..|dir| + 1] == child;
    }
    if child < p {
      assert p[..|dir|] == child[..|dir|] == dir;
      assert p[|dir|] == child[|dir|];
    }
  }

  lemma PassesThrough(t: Tree, matches: Matching, dir: Path, filter: string, area: int, kinds: Kinds, name: string)
    requires area != 0 && Passes(matches, filter, name) && dir + [name] in t
    ensures Through(Found(t, matches, dir, filter, area, kinds), dir, name)
         == (if kinds.Has(t[dir + [name]]) then {dir + [name]} else {})
            + Found(t, matches, dir + [name], filter, area - 1, kinds)
  {
    var child, s := dir + [name], Found(t, matches, dir, filter, area, kinds);
    var inner := Found(t, matches, child, filter, area - 1, kinds);
    forall q | q != child
      ensures q in Through(s, dir, name) <==> q in inner
    {
      ReachedThrough(matches, dir, filter, area, name, q);
    }
    assert child !in inner;
    assert child in Through(s, dir, name) <==> kinds.Has(t[child]);
  }

  lemma OnlyBelowFolders(t: Tree, matches: Matching, dir: Path, filter: string, area: int, kinds: Kinds)
    requires WellFormed(t) && dir != [] && dir in t
    ensures Found(t, matches, dir, filter, area, kinds) != {} ==> t[dir].Folder?
  {
    if q :| q in Found(t, matches, dir, filter, area, kinds) {
      PrefixExists(t, q, |dir|);
      assert q[..|dir|] == dir;
    }
  }

  // One entry of a folder contributes itself and whatever a search of it reports.
  lemma FoundThrough(t: Tree, matches: Matching, dir: Path, filter: string, area: int, kinds: Kinds, name: string)
    requires WellFormed(t) && area != 0
    ensures Skipped(name) ==> Through(Found(t, matches, dir, filter, area, kinds), dir, name) == {}
    ensures Passes(matches, filter, name) && dir + [name] in t ==>
              Through(Found(t, matches, dir, filter, area, kinds), dir, name)
              == (if kinds.Has(t[dir + [name]]) then {dir + [name]} else {})
                 + Found(t, matches, dir + [name], filter, area - 1, kinds)
    ensures dir != [] && dir + [name] in t && t[dir + [name]].File? ==>
              Found(t, matches, dir + [name], filter, area - 1, kinds) == {}
  {
    if dir + [name] in t {
      if Passes(matches, filter, name) {
        PassesThrough(t, matches, dir, filter, area, kinds, name);
      }
      OnlyBelowFolders(t, matches, dir + [name], filter, area - 1, kinds);
    }
  }

  predicate IsEntry(t: Tree, matches: Matching, dir: Path, filter: string, p: Path) {
    p in t && |p| == |dir| + 1 && dir < p && (WholeFolder(filter) || matches(filter, p[|dir|]))
  }

  // What entry `name` of folder `dir` adds to the list, given what the search of it found.
  function Part(t: Tree, dir: Path, kinds: Kinds, name: string, inner: seq<Path>): seq<Path> {
    var child := dir + [name];
    if Skipped(name) || child !in t then []
    else (if kinds.Has(t[child]) then [child] else []) + if t[child].Folder? then inner else []
  }

  lemma FollowEntry(t: Tree, matches: Matching, dir: Path, filter: string, area: int, kinds: Kinds,
                    names: seq<string>, k: nat, before: seq<Path>, inner: seq<Path>)
    requires WellFormed(t) && dir != [] && area != 0
    requires k < |names| && forall i, j :: 0 <= i < j < |names| ==> names[i] != names[j]
    requires Lists(before, ThroughAny(Found(t, matches, dir, filter, area, kinds), dir, names[..k]))
    requires Skipped(names[k]) || (Passes(matches, filter, names[k]) && dir + [names[k]] in t)
    requires !Skipped(names[k]) && t[dir + [names[k]]].Folder? ==>
               Lists(inner, Found(t, matches, dir + [names[k]], filter, area - 1, kinds))
    ensures Lists(before + Part(t, dir, kinds, names[k], inner),
              ThroughAny(Found(t, matches, dir, filter, area, kinds), dir, names[..k + 1]))
  {
    var s := Found(t, matches, dir, filter, area, kinds);
    var part := Part(t, dir, kinds, names[k], inner);
    FoundThrough(t, matches, dir, filter, area, kinds, names[k]);
    assert Lists(part, Through(s, dir, names[k]));
    ListsJoin(before, part, ThroughAny(s, dir, names[..k]), Through(s, dir, names[k]));
    assert ThroughAny(s, dir, names[..k]) + Through(s, dir, names[k]) == ThroughAny(s, dir, names[..k + 1]);
  }

  // Once every entry name has been followed, the whole result has been listed.
  lemma EveryNameFollowed(t: Tree, matches: Matching, dir: Path, filter: string, area: int, kinds: Kinds,
                          names: seq<string>)
    requires WellFormed(t) && dir != []
    requires forall p :: IsEntry(t, matches, dir, filter, p) ==> p[|dir|] in names
    ensures ThroughAny(Found(t, matches, dir, filter, area, kinds), dir, names)
            == Found(t, matches, dir, filter, area, kinds)
  {
    forall p | p in Found(t, matches, dir, filter, area, kinds) ensures p[|dir|] in names {
      var child := p[..|dir| + 1];
      if |p| > |dir| + 1 {
        PrefixExists(t, p, |dir| + 1);
      } else {
        assert child == p;
      }
      assert IsEntry(t, matches, dir, filter, child);
    }
  }

  // The names of the entries that are no longer to come, once each, behind "." and "..".
  ghost predicate Collected(dir: Path, names: seq<string>, all: set<Path>, rest: set<Path>) {
    && rest <= all && (forall p :: p in all ==> |p| == |dir| + 1 && dir < p)
    && (forall i, j :: 0 <= i < j < |names| ==> names[i] != names[j])
    && (forall n :: n in names ==> n == "." || n == ".." || dir + [n] in all - rest)
    && (forall p :: p in all - rest ==> p[|dir|] in names)
    && (forall p :: p in all ==> p[|dir|] != "." && p[|dir|] != "..")
  }

  lemma CollectedNext(dir: Path, names: seq<string>, all: set<Path>, rest: set<Path>, p: Path)
    requires Collected(dir, names, all, rest) && p in rest
    ensures Collected(dir, names + [p[|dir|]], all, rest - {p})
  {
    assert p == dir + [p[|dir|]];
    assert p !in all - rest;
  }

  // ----- The comparator's order -----

  function Rank(p: Path): nat { Backslashes(Text(p)) }

  predicate DeepestFirst(xs: seq<Path>) {
    forall i, j :: 0 <= i < j < |xs| ==> Rank(xs[i]) >= Rank(xs[j])
  }

  lemma InsertedOnce(ys: seq<Path>, pos: nat, x: Path, s: set<Path>)
    requires pos <= |ys| && Lists(ys, s) && x !in s
    ensures Lists(ys[..pos] + [x] + ys[pos..], s + {x})
  {
    var zs := ys[..pos] + [x] + ys[pos..];
    forall i, j | 0 <= i < j < |zs| ensures zs[i] != zs[j] {
      assert forall k :: 0 <= k < |ys| ==> ys[k] in ys;
    }
    assert forall y :: y in zs <==> y in ys[..pos] || y == x || y in ys[pos..];
    assert forall y :: y in ys <==> y in ys[..pos] || y in ys[pos..];
  }

  lemma InsertedInOrder(ys: seq<Path>, pos: nat, x: Path)
    requires pos <= |ys| && DeepestFirst(ys)
    requires forall i :: 0 <= i < pos ==> Rank(ys[i]) >= Rank(x)
    requires pos < |ys| ==> Rank(ys[pos]) < Rank(x)
    ensures DeepestFirst(ys[..pos] + [x] + ys[pos..])
  {
    var zs := ys[..pos] + [x] + ys[pos..];
    forall i, j | 0 <= i < j < |zs| ensures Rank(zs[i]) >= Rank(zs[j]) {
      if j > pos {
        assert zs[j] == ys[j - 1];
      }
      if i > pos {
        assert zs[i] == ys[i - 1];
      }
    }
  }

  // ----- What the removal leaves -----

  datatype Outcome = Outcome(ok: bool, tree: Tree)

  ghost function AfterFiles(t: Tree, files: set<Path>): Tree {
    map p | p in t && !(p in files && !t[p].readOnly) :: t[p]
  }

  // Something under folder `p` that is not itself one of the folders to remove.
  ghost predicate Stuck(t: Tree, folders: set<Path>, p: Path) {
    exists q :: q in t && p < q && q !in folders
  }

  ghost predicate NoneStuck(t: Tree, folders: set<Path>, tried: set<Path>) {
    forall p :: p in tried ==> !Stuck(t, folders, p)
  }

  ghost function AfterFolders(t: Tree, folders: set<Path>, tried: set<Path>): Tree {
    map p | p in t && (p in tried ==> Stuck(t, folders, p)) :: if p in tried then Folder(false) else t[p]
  }

  ghost function Removal(t: Tree, matches: Matching, root: Path, filter: string, exceptSubFolder: bool): Outcome {
    var area := if exceptSubFolder then CURRENT_FOLDER else ALL_SUB_FOLDERS;
    var files := Found(t, matches, root, filter, area, ListedByFileSearch(filter, false));
    var t1 := AfterFiles(t, files);
    var folders := Found(t1, matches, root, "*", area, ListedByFolderSearch("*"));
    if Text(root) == "" then Outcome(false, t)
    else if exists p :: p in files && t[p].readOnly then Outcome(false, t1)
    else if exceptSubFolder then Outcome(true, t1)
    else Outcome(NoneStuck(t1, folders, folders), AfterFolders(t1, folders, folders))
  }

  lemma AfterFilesWellFormed(t: Tree, files: set<Path>)
    requires WellFormed(t) && forall p :: p in files ==> p in t && t[p].File?
    ensures WellFormed(AfterFiles(t, files))
  {
  }

  // When its turn comes in the sorted order, a folder is empty unless it is stuck: every
  // other folder under it has more backslashes and went before.
  lemma StuckWhenTried(t: Tree, folders: set<Path>, order: seq<Path>, k: nat)
    requires WellFormed(t) && k < |order| && Lists(order, folders) && DeepestFirst(order)
    requires forall p :: p in folders ==> p in t
    ensures Below(AfterFolders(t, folders, Elements(order[..k])), order[k]) == {} <==> !Stuck(t, folders, order[k])
  {
    var f, tried := order[k], Elements(order[..k]);
    var now := AfterFolders(t, folders, tried);
    assert f in order && f in t;
    forall q | q in Below(now, f) && q in folders ensures Stuck(t, folders, f) {
      BackslashesAreDepth(f);
      BackslashesAreDepth(q);
      assert q[0] == f[0];
      var j :| 0 <= j < |order| && order[j] == q;
      assert j < k;
      assert q in order[..k];
      var r :| r in t && q < r && r !in folders;
      assert f < r;
    }
    if q :| q in t && f < q && q !in folders {
      assert q !in order;
      assert q in Below(now, f);
    }
  }

  lemma FolderTried(t: Tree, folders: set<Path>, order: seq<Path>, k: nat)
    requires WellFormed(t) && k < |order| && Lists(order, folders) && DeepestFirst(order)
    requires forall p :: p in folders ==> p in t && t[p].Folder?
    ensures var before, f := AfterFolders(t, folders, Elements(order[..k])), order[k];
            && f in before && before[f].Folder?
            && (Below(before, f) == {} <==> !Stuck(t, folders, f))
            && AfterFolders(t, folders, Elements(order[..k + 1]))
               == (if Stuck(t, folders, f) then before[f := Folder(false)] else before - {f})
            && NoneStuck(t, folders, Elements(order[..k + 1]))
               == (NoneStuck(t, folders, Elements(order[..k])) && !Stuck(t, folders, f))
  {
    assert order[k] in order && order[k] !in order[..k];
    assert Elements(order[..k + 1]) == Elements(order[..k]) + {order[k]};
    StuckWhenTried(t, folders, order, k);
  }

  // What has been done when k folders have been tried.
  ghost predicate Tried(t: Tree, folders: set<Path>, order: seq<Path>, k: nat, now: Tree, ok: bool)
    requires k <= |order|
  {
    && now == AfterFolders(t, folders, Elements(order[..k]))
    && ok == NoneStuck(t, folders, Elements(order[..k]))
  }

  lemma StillThere(t: Tree, folders: set<Path>, order: seq<Path>, k: nat, now: Tree, ok: bool)
    requires WellFormed(t) && k < |order| && Lists(order, folders) && DeepestFirst(order)
    requires forall p :: p in folders ==> p in t && t[p].Folder?
    requires Tried(t, folders, order, k, now, ok)
    ensures order[k] in now && now[order[k]].Folder?
  {
    FolderTried(t, folders, order, k);
  }

  lemma TriedNext(t: Tree, folders: set<Path>, order: seq<Path>, k: nat, now: Tree, ok: bool, next: Tree, removed: bool)
    requires WellFormed(t) && k < |order| && Lists(order, folders) && DeepestFirst(order)
    requires forall p :: p in folders ==> p in t && t[p].Folder?
    requires Tried(t, folders, order, k, now, ok) && removed == (Below(now, order[k]) == {})
    requires next == if removed then now - {order[k]} else now[order[k] := Folder(false)]
    ensures Tried(t, folders, order, k + 1, next, ok && removed)
  {
    FolderTried(t, folders, order, k);
  }

  lemma AllTried(t: Tree, folders: set<Path>, order: seq<Path>, now: Tree, ok: bool)
    requires Lists(order, folders) && Tried(t, folders, order, |order|, now, ok)
    ensures now == AfterFolders(t, folders, folders) && ok == NoneStuck(t, folders, folders)
  {
    assert Elements(order[..|order|]) == folders;
  }

  lemma NoneTried(t: Tree, folders: set<Path>, order: seq<Path>)
    ensures Tried(t, folders, order, 0, t, true)
  {
    assert Elements(order[..0]) == {};
  }

  class Volume {
    var nodes: Tree
    const matches: Matching

    constructor (nodes: Tree, matches: Matching)
      ensures this.nodes == nodes && this.matches == matches
    {
      this.nodes := nodes;
      this.matches := matches;
    }

    method DeleteFile(p: Path) returns (ok: bool)
      modifies this
      ensures ok == (p in old(nodes) && old(nodes)[p] == File(false))
      ensures nodes == if ok then old(nodes) - {p} else old(nodes)
    {
      ok := p in nodes && nodes[p].File? && !nodes[p].readOnly;
      if ok {
        nodes := nodes - {p};
      }
    }

    method SetNormalAttributes(p: Path) returns (ok: bool)
      modifies this
      ensures ok == (p in old(nodes))
      ensures nodes == if ok then old(nodes)[p := old(nodes)[p].(readOnly := false)] else old(nodes)
    {
      ok := p in nodes;
      if ok {
        nodes := nodes[p := nodes[p].(readOnly := false)];
      }
    }

    method RemoveDirectory(p: Path) returns (ok: bool)
      modifies this
      ensures ok == (p in old(nodes) && old(nodes)[p] == Folder(false) && Below(old(nodes), p) == {})
      ensures nodes == if ok then old(nodes) - {p} else old(nodes)
    {
      ok := p in nodes && nodes[p].Folder? && !nodes[p].readOnly && forall q :: q in nodes ==> !(p < q);
      if ok {
        nodes := nodes - {p};
      } else if p in nodes && nodes[p] == Folder(false) {
        var q :| q in nodes && p < q;
        assert q in Below(nodes, p);
      }
    }

    // What FindFirstFile and FindNextFile hand back, in any order, "." and ".." included.
    method FindEntries(dir: Path, filter: string) returns (names: seq<string>)
      requires WellFormed(nodes) && dir != []
      ensures forall i, j :: 0 <= i < j < |names| ==> names[i] != names[j]
      ensures forall n :: n in names ==> n == "." || n == ".." || (IsName(n) && dir + [n] in nodes)
      ensures forall n :: n in names && IsName(n) ==> WholeFolder(filter) || matches(filter, n)
      ensures forall p :: IsEntry(nodes, matches, dir, filter, p) ==> p[|dir|] in names
    {
      names := if WholeFolder(filter) then [".", ".."] else [];
      var rest := set p | p in nodes && IsEntry(nodes, matches, dir, filter, p);
      ghost var all := rest;
      while rest != {}
        invariant Collected(dir, names, all, rest)
        decreases rest
      {
        var p :| p in rest;
        CollectedNext(dir, names, all, rest, p);
        names := names + [p[|dir|]];
        rest := rest - {p};
      }
    }

    // What the entry `name` adds to a file list, and what was found below it if it is a folder.
    method FileEntry(dir: Path, name: string, filter: string, area: int, includeFolder: bool, addFile: bool,
                     addFolder: bool)
      returns (part: seq<Path>, ghost inner: seq<Path>)
      requires WellFormed(nodes) && dir != [] && filter != "" && area != 0
      requires name == "." || name == ".." || (IsName(name) && dir + [name] in nodes)
      requires Kinds(addFile, addFolder && includeFolder) == ListedByFileSearch(filter, includeFolder)
      ensures part == Part(nodes, dir, ListedByFileSearch(filter, includeFolder), name, inner)
      ensures !Skipped(name) && nodes[dir + [name]].Folder? ==>
                Lists(inner, Found(nodes, matches, dir + [name], filter, area - 1,
                                   ListedByFileSearch(filter, includeFolder)))
      decreases Below(nodes, dir), 0
    {
      part, inner := [], [];
      if name[0] != '.' || |name| > 2 {
        var p := dir + [name];
        BelowShrinks(nodes, dir, p);
        if nodes[p].Folder? {
          if addFolder && includeFolder {
            part := part + [p];
          }
          var found := FindFileList(p, filter, area - 1, includeFolder);
          inner, part := found, part + found;
        } else if addFile {
          part := part + [p];
        }
      }
    }

    method FindFileList(dir: Path, filter: string, area: int, includeFolder: bool)
      returns (list: seq<Path>)
      requires WellFormed(nodes) && dir != [] && filter != ""
      ensures Lists(list,
        Found(nodes, matches, dir, filter, area, ListedByFileSearch(filter, includeFolder)))
      decreases Below(nodes, dir), 1
    {
      list := [];
      ghost var kinds := ListedByFileSearch(filter, includeFolder);
      ghost var goal := Found(nodes, matches, dir, filter, area, kinds);
      if area == 0 {
        return;
      }
      var addFile, addFolder := true, false;
      if |filter| == 1 {
        if filter[0] == '\\' {
          addFile, addFolder := false, true;
        } else if filter[0] == '*' {
          addFolder := true;
        }
      }
      var names := FindEntries(dir, filter);
      for k := 0 to |names|
        invariant Lists(list, ThroughAny(goal, dir, names[..k]))
      {
        assert names[k] in names;
        var part, inner := FileEntry(dir, names[k], filter, area, includeFolder, addFile, addFolder);
        FollowEntry(nodes, matches, dir, filter, area, kinds, names, k, list, inner);
        list := list + part;
      }
      assert names[..|names|] == names;
      EveryNameFollowed(nodes, matches, dir, filter, area, kinds, names);
    }

    method FolderEntry(dir: Path, name: string, filter: string, area: int, addFolder: bool)
      returns (part: seq<Path>, ghost inner: seq<Path>)
      requires WellFormed(nodes) && dir != [] && filter != "" && area != 0
      requires name == "." || name == ".." || (IsName(name) && dir + [name] in nodes)
      requires addFolder == WholeFolder(filter)
      ensures part == Part(nodes, dir, ListedByFolderSearch(filter), name, inner)
      ensures !Skipped(name) && nodes[dir + [name]].Folder? ==>
                Lists(inner, Found(nodes, matches, dir + [name], filter, area - 1, ListedByFolderSearch(filter)))
      decreases Below(nodes, dir), 0
    {
      part, inner := [], [];
      if name[0] != '.' || |name| > 2 {
        var p := dir + [name];
        BelowShrinks(nodes, dir, p);
        if nodes[p].Folder? {
          if addFolder {
            part := part + [p];
          }
          var found := FindSubFolderList(p, filter, area - 1);
          inner, part := found, part + found;
        }
      }
    }

    method FindSubFolderList(dir: Path, filter: string, area: int) returns (list: seq<Path>)
      requires WellFormed(nodes) && dir != [] && filter != ""
      ensures Lists(list, Found(nodes, matches, dir, filter, area, ListedByFolderSearch(filter)))
      decreases Below(nodes, dir), 1
    {
      list := [];
      ghost var kinds := ListedByFolderSearch(filter);
      ghost var goal := Found(nodes, matches, dir, filter, area, kinds);
      if area == 0 {
        return;
      }
      var addFolder := |filter| == 1 && (filter[0] == '\\' || filter[0] == '*');
      var names := FindEntries(dir, filter);
      for k := 0 to |names|
        invariant Lists(list, ThroughAny(goal, dir, names[..k]))
      {
        assert names[k] in names;
        var part, inner := FolderEntry(dir, names[k], filter, area, addFolder);
        FollowEntry(nodes, matches, dir, filter, area, kinds, names, k, list, inner);
        list := list + part;
      }
      assert names[..|names|] == names;
      EveryNameFollowed(nodes, matches, dir, filter, area, kinds, names);
    }

    method FirstShallower(ys: seq<Path>, x: Path) returns (pos: nat)
      ensures pos <= |ys| && forall i :: 0 <= i < pos ==> Rank(ys[i]) >= Rank(x)
      ensures pos < |ys| ==> Rank(ys[pos]) < Rank(x)
    {
      var n := CountBackslashes(Text(x));
      pos := 0;
      while pos < |ys|
        invariant pos <= |ys| && forall i :: 0 <= i < pos ==> Rank(ys[i]) >= n
      {
        var m := CountBackslashes(Text(ys[pos]));
        if m < n {
          return;
        }
        pos := pos + 1;
      }
    }

    // std::list::sort with the comparator that puts more backslashes first.
    method SortDeepestFirst(xs: seq<Path>, ghost s: set<Path>) returns (ys: seq<Path>)
      requires Lists(xs, s)
      ensures Lists(ys, s) && DeepestFirst(ys)
    {
      ys := [];
      for k := 0 to |xs|
        invariant Lists(ys, Elements(xs[..k])) && DeepestFirst(ys)
      {
        var pos := FirstShallower(ys, xs[k]);
        assert xs[k] !in xs[..k];
        InsertedInOrder(ys, pos, xs[k]);
        InsertedOnce(ys, pos, xs[k], Elements(xs[..k]));
        assert Elements(xs[..k + 1]) == Elements(xs[..k]) + {xs[k]};
        ys := ys[..pos] + [xs[k]] + ys[pos..];
      }
      assert Elements(xs[..|xs|]) == s;
    }

    method DeleteFiles(files: seq<Path>, root: Path, ghost targets: set<Path>) returns (ok: bool)
      requires Lists(files, targets)
      requires forall p :: p in targets ==> p in nodes && nodes[p].File? && p != root
      modifies this
      ensures ok == forall p :: p in targets ==> !old(nodes)[p].readOnly
      ensures nodes == AfterFiles(old(nodes), targets)
    {
      ok := true;
      for k := 0 to |files|
        invariant nodes == AfterFiles(old(nodes), Elements(files[..k]))
        invariant ok == forall p :: p in Elements(files[..k]) ==> !old(nodes)[p].readOnly
      {
        assert files[k] in targets && files[k] !in files[..k];
        assert Elements(files[..k + 1]) == Elements(files[..k]) + {files[k]};
        if root != files[k] {
          var deleted := DeleteFile(files[k]);
          if !deleted {
            ok := false;
          }
        }
      }
      assert Elements(files[..|files|]) == targets;
    }

    method RemoveFolder(f: Path) returns (removed: bool)
      requires f in nodes && nodes[f].Folder?
      modifies this
      ensures removed == (Below(old(nodes), f) == {})
      ensures nodes == if removed then old(nodes) - {f} else old(nodes)[f := Folder(false)]
    {
      removed := SetNormalAttributes(f);
      assert Below(nodes, f) == Below(old(nodes), f);
      if removed {
        removed := RemoveDirectory(f);
      }
    }

    // One round of the loop that removes the folders.
    method TryFolder(order: seq<Path>, k: nat, ok: bool, ghost t: Tree, ghost folders: set<Path>) returns (ok': bool)
      requires WellFormed(t) && k < |order| && Lists(order, folders) && DeepestFirst(order)
      requires forall p :: p in folders ==> p in t && t[p].Folder?
      requires Tried(t, folders, order, k, nodes, ok)
      modifies this
      ensures Tried(t, folders, order, k + 1, nodes, ok')
    {
      ghost var now := nodes;
      StillThere(t, folders, order, k, now, ok);
      var removed := RemoveFolder(order[k]);
      ok' := ok;
      if !removed {
        ok' := false;
      }
      TriedNext(t, folders, order, k, now, ok, nodes, removed);
    }

    method RemoveFolders(order: seq<Path>, ghost folders: set<Path>) returns (ok: bool)
      requires WellFormed(nodes) && Lists(order, folders) && DeepestFirst(order)
      requires forall p :: p in folders ==> p in nodes && nodes[p].Folder?
      modifies this
      ensures ok == NoneStuck(old(nodes), folders, folders)
      ensures nodes == AfterFolders(old(nodes), folders, folders)
    {
      ok := true;
      ghost var t := nodes;
      NoneTried(t, folders, order);
      for k := 0 to |order|
        invariant Tried(t, folders, order, k, nodes, ok)
      {
        ok := TryFolder(order, k, ok, t, folders);
      }
      AllTried(t, folders, order, nodes, ok);
    }

    method RemoveFolderContents(root: Path, filter: string, exceptSubFolder: bool) returns (ok: bool)
      requires WellFormed(nodes) && root != [] && filter != ""
      modifies this
      ensures Outcome(ok, nodes) == Removal(old(nodes), matches, root, filter, exceptSubFolder)
    {
      ok := false;
      if Text(root) == "" {
        return;
      }
      var area := if exceptSubFolder then CURRENT_FOLDER else ALL_SUB_FOLDERS;
      var files := FindFileList(root, filter, area, false);
      ghost var targets := Found(nodes, matches, root, filter, area, ListedByFileSearch(filter, false));
      AfterFilesWellFormed(nodes, targets);
      ok := DeleteFiles(files, root, targets);
      if !ok || exceptSubFolder {
        return;
      }
      var folders := FindSubFolderList(root, "*", area);
      ghost var goal := Found(nodes, matches, root, "*", area, ListedByFolderSearch("*"));
      folders := SortDeepestFirst(folders, goal);
      ok := RemoveFolders(folders, goal);
    }
  }

  // ----- The theorems -----

  // Whatever the filter and the mode, only what lies under the folder is touched.
  lemma NothingElseTouched(t: Tree, matches: Matching, root: Path, filter: string, exceptSubFolder: bool)
    ensures var after := Removal(t, matches, root, filter, exceptSubFolder).tree;
            && after.Keys <= t.Keys
            && forall p :: p in t && !(root < p) ==> p in after && after[p] == t[p]
  {
  }

  ghost predicate Visible(root: Path, p: Path) {
    root < p && forall i :: |root| <= i < |p| ==> !Skipped(p[i])
  }

  ghost function VisibleFiles(t: Tree, root: Path): set<Path> {
    set p | p in Below(t, root) && t[p].File? && Visible(root, p)
  }

  ghost function VisibleFolders(t: Tree, root: Path): set<Path> {
    set p | p in Below(t, root) && t[p].Folder? && Visible(root, p)
  }

  lemma FoundIsVisible(t: Tree, matches: Matching, root: Path)
    ensures Found(t, matches, root, "*", ALL_SUB_FOLDERS, ListedByFileSearch("*", false)) == VisibleFiles(t, root)
    ensures Found(t, matches, root, "*", ALL_SUB_FOLDERS, ListedByFolderSearch("*")) == VisibleFolders(t, root)
  {
    assert forall p :: Reached(matches, root, "*", ALL_SUB_FOLDERS, p) <==> Visible(root, p);
  }

  // Some entry is stepped over below the first level.
  ghost predicate HiddenInside(t: Tree, root: Path, q: Path) {
    q in Below(t, root) && !Visible(root, q) && !Skipped(q[|root|])
  }

  lemma StepsToSkipped(t: Tree, root: Path, q: Path, i: nat)
    requires WellFormed(t) && root != [] && q in t && root < q
    requires |root| <= i < |q| && Skipped(q[i]) && !Skipped(q[|root|])
    ensures exists k :: |root| < k <= i && Visible(root, q[..k]) && q[..k] in t && t[q[..k]].Folder?
  {
    var k := |root| + 1;
    assert q[..k][..|root|] == q[..|root|] == root;
    PrefixExists(t, q, k);
    assert Visible(root, q[..k]);
  }

  lemma HiddenMakesStuck(t: Tree, root: Path, t1: Tree, q: Path)
    requires WellFormed(t) && root != [] && HiddenInside(t, root, q)
    requires t1 == AfterFiles(t, VisibleFiles(t, root))
    ensures exists p :: p in VisibleFolders(t, root) && Stuck(t1, VisibleFolders(t, root), p)
  {
    var i :| |root| <= i < |q| && Skipped(q[i]);
    StepsToSkipped(t, root, q, i);
    var k :| |root| < k <= i && Visible(root, q[..k]) && q[..k] in t && t[q[..k]].Folder?;
    assert q[..k] in VisibleFolders(t, root) && q in t1 && q[..k] < q && q !in VisibleFolders(t, root);
  }

  lemma StuckBehindHidden(t: Tree, root: Path, t1: Tree, p: Path)
    requires forall f :: f in VisibleFiles(t, root) ==> !t[f].readOnly
    requires t1 == AfterFiles(t, VisibleFiles(t, root))
    requires p in VisibleFolders(t, root) && Stuck(t1, VisibleFolders(t, root), p)
    ensures exists q :: HiddenInside(t, root, q)
  {
    var q :| q in t1 && p < q && q !in VisibleFolders(t, root);
    assert q[|root|] == p[|root|];
    assert q[..|root|] == p[..|root|] == root;
    assert HiddenInside(t, root, q);
  }

  // A removal with filter "*" that includes the sub-folders, in terms of what is visible.
  ghost function FullRemoval(t: Tree, root: Path): Outcome {
    var t1 := AfterFiles(t, VisibleFiles(t, root));
    var folders := VisibleFolders(t1, root);
    if exists p :: p in VisibleFiles(t, root) && t[p].readOnly then Outcome(false, t1)
    else Outcome(NoneStuck(t1, folders, folders), AfterFolders(t1, folders, folders))
  }

  lemma RemovalIsFull(t: Tree, matches: Matching, root: Path)
    requires Text(root) != ""
    ensures Removal(t, matches, root, "*", false) == FullRemoval(t, root)
  {
    FoundIsVisible(t, matches, root);
    FoundIsVisible(AfterFiles(t, VisibleFiles(t, root)), matches, root);
  }

  lemma LeftBehindSkipped(t: Tree, root: Path, t1: Tree, folders: set<Path>)
    requires forall p :: p in VisibleFiles(t, root) ==> !t[p].readOnly
    requires t1 == AfterFiles(t, VisibleFiles(t, root)) && folders == VisibleFolders(t, root)
    requires forall p :: p in folders ==> !Stuck(t1, folders, p)
    requires !exists q :: HiddenInside(t, root, q)
    ensures Below(AfterFolders(t1, folders, folders), root) == set p | p in Below(t, root) && Skipped(p[|root|])
  {
    forall p | p in Below(t, root)
      ensures p in AfterFolders(t1, folders, folders) <==> Skipped(p[|root|])
    {
      assert !HiddenInside(t, root, p);
      assert Visible(root, p) <==> p in VisibleFiles(t, root) || p in folders;
    }
  }

  // A full removal reports success exactly when no visible file is read-only and every entry
  // it steps over sits behind a stepped-over entry of the folder itself, which is then all
  // that is left.
  lemma SuccessExactly(t: Tree, root: Path)
    requires WellFormed(t) && root != []
    ensures FullRemoval(t, root).ok
       <==> (forall p :: p in VisibleFiles(t, root) ==> !t[p].readOnly) && !exists q :: HiddenInside(t, root, q)
    ensures var o := FullRemoval(t, root);
            o.ok ==> Below(o.tree, root) == set p | p in Below(t, root) && Skipped(p[|root|])
  {
    var files := VisibleFiles(t, root);
    var t1 := AfterFiles(t, files);
    var folders := VisibleFolders(t1, root);
    if forall p :: p in files ==> !t[p].readOnly {
      assert folders == VisibleFolders(t, root);
      if q :| HiddenInside(t, root, q) {
        HiddenMakesStuck(t, root, t1, q);
      } else {
        forall p | p in folders && Stuck(t1, folders, p) ensures exists q :: HiddenInside(t, root, q) {
          StuckBehindHidden(t, root, t1, p);
        }
        LeftBehindSkipped(t, root, t1, folders);
      }
    }
  }

  lemma StepExists(t: Tree, root: Path, p: Path, i: nat)
    requires WellFormed(t) && root != [] && p in Below(t, root) && |root| <= i < |p|
    ensures p[..i + 1] in Below(t, root)
  {
    if i + 1 < |p| {
      PrefixExists(t, p, i + 1);
    } else {
      assert p[..i + 1] == p;
    }
    assert p[..i + 1][..|root|] == p[..|root|] == root;
  }

  lemma AllVisible(t: Tree, root: Path)
    requires WellFormed(t) && root != []
    ensures (forall p :: p in Below(t, root) ==> !Skipped(p[|p| - 1]))
            <==> (forall p :: p in Below(t, root) ==> Visible(root, p))
  {
    if forall p :: p in Below(t, root) ==> !Skipped(p[|p| - 1]) {
      forall p, i | p in Below(t, root) && |root| <= i < |p| ensures !Skipped(p[i]) {
        StepExists(t, root, p, i);
        assert p[..i + 1][i] == p[i];
      }
    }
  }

  lemma EmptiesWhenAllVisible(t: Tree, root: Path)
    requires WellFormed(t) && root != []
    ensures FullRemoval(t, root).ok && Below(FullRemoval(t, root).tree, root) == {}
       <==> forall p :: p in Below(t, root) ==> Visible(root, p) && t[p] != File(true)
  {
    SuccessExactly(t, root);
    var left := Below(FullRemoval(t, root).tree, root);
    if FullRemoval(t, root).ok {
      forall p | p in Below(t, root) ensures Visible(root, p) <==> p !in left {
        assert !HiddenInside(t, root, p);
        assert p in left <==> Skipped(p[|root|]);
      }
      assert forall p :: p in Below(t, root) && Visible(root, p) ==> t[p] != File(true);
      assert left <= Below(t, root);
    } else if p :| p in VisibleFiles(t, root) && t[p].readOnly {
      assert p in Below(t, root) && t[p] == File(true);
    }
  }

  // Success with nothing left: exactly when there is neither a read-only file nor a name
  // that the search steps over anywhere below the folder.
  lemma EmptiesExactly(t: Tree, matches: Matching, root: Path)
    requires WellFormed(t) && root != [] && Text(root) != ""
    ensures var o := Removal(t, matches, root, "*", false);
            o.ok && Below(o.tree, root) == {}
            <==> forall p :: p in Below(t, root) ==> !Skipped(p[|p| - 1]) && t[p] != File(true)
  {
    RemovalIsFull(t, matches, root);
    EmptiesWhenAllVisible(t, root);
    AllVisible(t, root);
  }
}
