/** The directory tree: search_file, sys_chdir and sys_getcwd of src/fs/fs.c. */
module Tree {
  import opened Machine
  import opened Directory
  import opened Paths

  const ROOT: nat := 0
  const MAX_PATH_LEN: nat := 512

  /** The slots of every directory, by inode number */
  type Dirs = map<nat, seq<Entry>>

  // ----- well-formed trees -----

  function Parent(dirs: Dirs, d: nat): nat
    requires d in dirs && |dirs[d]| >= 2
  {
    dirs[d][1].ino
  }

  /** "." and ".." come first, and the other entries have proper names. */
  ghost predicate DirWf(dirs: Dirs, d: nat)
    requires d in dirs
  {
    var s := dirs[d];
    && SlotsOk(s) && |s| >= 2 && s[0] == Entry(".", d, Folder) && s[1].name == ".." && s[1].kind == Folder && s[1].ino in dirs
    && (forall p :: 2 <= p < |s| && Live(s[p]) ==> IsName(s[p].name))
    && (forall p :: 2 <= p < |s| && s[p].kind == Folder ==> ChildOk(dirs, d, s[p].ino))
    && (forall p :: 2 <= p < |s| && s[p].kind == Regular ==> s[p].ino !in dirs)
    && (forall p, q :: 2 <= p < q < |s| && Live(s[p]) && Live(s[q]) ==> s[p].ino != s[q].ino)
  }

  /** A subdirectory points back to where it hangs. */
  predicate ChildOk(dirs: Dirs, d: nat, c: nat) {
    c != ROOT && c in dirs && |dirs[c]| >= 2 && dirs[c][1].ino == d
  }

  /** Every directory but the root hangs in its parent, one level higher. */
  ghost predicate Hangs(dirs: Dirs, depth: map<nat, nat>, d: nat)
    requires d in dirs && |dirs[d]| >= 2
  {
    var up := Parent(dirs, d);
    && d in depth && up in depth && up in dirs
    && if d == ROOT then up == ROOT && depth[d] == 0 else depth[d] == depth[up] + 1 && HasChild(dirs[up], d)
  }

  ghost predicate HasChild(s: seq<Entry>, c: nat) {
    exists p :: 2 <= p < |s| && s[p].kind == Folder && s[p].ino == c
  }

  ghost predicate TreeOk(dirs: Dirs, depth: map<nat, nat>) {
    ROOT in dirs && forall d :: TreeAt(dirs, depth, d)
  }

  ghost predicate TreeAt(dirs: Dirs, depth: map<nat, nat>, d: nat) {
    d in dirs ==> d < MAX_INODES && DirWf(dirs, d) && Hangs(dirs, depth, d)
  }

  // ----- searching -----

  /** `Undefined`: the path names nothing, and the code returns an entry it never filled in. */
  datatype Answer = At(ino: nat, kind: Kind, parent: nat, searched: string) | NotFound(parent: nat, searched: string) | Undefined

  /** Looking up `cs` from directory `d`; a regular file ends the walk wherever it comes. */
  function Walk(dirs: Dirs, d: nat, searched: string, cs: seq<string>): Answer
    decreases |cs|
  {
    if cs == [] || d !in dirs then Undefined else
      var t, s := Table(dirs[d]), searched + "/" + cs[0];
      if cs[0] !in t then NotFound(d, s)
      else if t[cs[0]].kind == Folder && |cs| > 1 then Walk(dirs, t[cs[0]].ino, s, cs[1..])
      else At(t[cs[0]].ino, t[cs[0]].kind, d, s)
  }

  predicate IsRootPath(path: string) {
    path == "/" || path == "/." || path == "/.."
  }

  function Search(dirs: Dirs, path: string): Answer {
    if IsRootPath(path) then At(ROOT, Folder, ROOT, "") else Walk(dirs, ROOT, "", Components(path))
  }

  predicate EntryOk(dirs: Dirs, e: Entry) {
    e.kind != Unknown && (e.kind == Folder ==> e.ino in dirs)
  }

  /** Subdirectories exist. */
  ghost predicate Closed(dirs: Dirs) {
    ROOT in dirs && forall d, n :: d in dirs && n in Table(dirs[d]) ==> EntryOk(dirs, Table(dirs[d])[n])
  }

  lemma TreeIsClosed(dirs: Dirs, depth: map<nat, nat>)
    requires TreeOk(dirs, depth)
    ensures Closed(dirs)
  {
    forall d, n | d in dirs && n in Table(dirs[d]) ensures EntryOk(dirs, Table(dirs[d])[n]) {
      var p := TableFrom(dirs[d], n);
      assert TreeAt(dirs, depth, d);
    }
  }

  /** search_dir_entry, as Directory.Dir.Search promises it */
  method SearchDirEntry(dirs: Dirs, d: nat, name: string) returns (r: Option<Entry>)
    requires d in dirs
    ensures r == if name in Table(dirs[d]) then Some(Table(dirs[d])[name]) else None
  {
    var t := Table(dirs[d]);
    return if name in t then Some(t[name]) else None;
  }

  /** search_file */
  method SearchFile(dirs: Dirs, path: string) returns (r: Outcome<Answer>)
    requires Closed(dirs)
    ensures r.Halt? <==> !IsRootPath(path) && !(IsPath(path) && |path| < MAX_PATH_LEN)
    ensures r.Done? ==> r.value == Search(dirs, path)
  {
    if IsRootPath(path) {
      return Done(At(ROOT, Folder, ROOT, ""));
    }
    if !(IsPath(path) && |path| < MAX_PATH_LEN) {
      return Halt;
    }
    var d, searched, last := ROOT, "", Undefined;
    var name, sub := PathParse(path, "");
    while name != ""
      invariant d in dirs && IsSub(sub)
      invariant name != "" ==> IsName(name) && Walk(dirs, d, searched, [name] + Rest(sub)) == Search(dirs, path)
      invariant name != "" ==> |searched| + 1 + |name| + (if sub.Some? then |sub.value| else 0) <= |path|
      invariant name == "" ==> last == Search(dirs, path)
      decreases name != "", if sub.Some? then |sub.value| + 1 else 0
    {
      assert |searched| < MAX_PATH_LEN;
      var next;
      last, next := LookUp(dirs, d, name, searched, Rest(sub));
      searched := searched + "/" + name;
      if next.None? {
        return Done(last);
      }
      d := next.value;
      name := "";
      if sub.Some? {
        name, sub := PathParse(sub.value, "");
      }
    }
    return Done(last);
  }

  /** One round of search_file: the answer if the walk ends here, and the directory to go on in */
  method LookUp(dirs: Dirs, d: nat, name: string, searched: string, ghost rest: seq<string>)
    returns (last: Answer, next: Option<nat>)
    requires Closed(dirs) && d in dirs
    ensures next.None? || rest == [] ==> last == Walk(dirs, d, searched, [name] + rest)
    ensures next.Some? ==> next.value in dirs
    ensures next.Some? && rest != [] ==> Walk(dirs, d, searched, [name] + rest) == Walk(dirs, next.value, searched + "/" + name, rest)
  {
    var e := SearchDirEntry(dirs, d, name);
    ghost var cs := [name] + rest;
    assert cs[0] == name && cs[1..] == rest;
    if e.None? {
      return NotFound(d, searched + "/" + name), None;
    }
    assert EntryOk(dirs, e.value);
    last := At(e.value.ino, e.value.kind, d, searched + "/" + name);
    next := if e.value.kind == Folder then Some(e.value.ino) else None;
  }

  // ----- the path of a directory -----

  /** The first slot with inode number `ino` */
  function FindIno(s: seq<Entry>, ino: nat): (p: nat)
    ensures p <= |s| && (p < |s| ==> s[p].ino == ino) && forall q :: 0 <= q < p ==> s[q].ino != ino
  {
    if s == [] || s[0].ino == ino then 0 else
      var p := FindIno(s[1..], ino);
      assert forall q :: 1 <= q < p + 1 ==> s[q] == s[1..][q - 1];
      p + 1
  }

  lemma FindInoIs(s: seq<Entry>, ino: nat, p: nat)
    requires p < |s| && s[p].ino == ino && forall q :: 0 <= q < p ==> s[q].ino != ino
    ensures FindIno(s, ino) == p
  {
    var q := FindIno(s, ino);
    assert q <= p && p <= q;
  }

  /** Where a directory hangs: one slot of its parent, neither "." nor "..", nor an empty one. */
  lemma ChildSlot(dirs: Dirs, depth: map<nat, nat>, c: nat) returns (p: nat)
    requires TreeOk(dirs, depth) && c in dirs && c != ROOT
    ensures |dirs[c]| >= 2 && Parent(dirs, c) in dirs && Parent(dirs, c) in depth && c in depth && depth[c] == depth[Parent(dirs, c)] + 1
    ensures var s := dirs[Parent(dirs, c)]; p == FindIno(s, c) && 2 <= p < |s| && s[p].kind == Folder && IsName(s[p].name)
    ensures var s := dirs[Parent(dirs, c)]; s[p].name != "." && s[p].name != ".." && s[p].name in Table(s) && Table(s)[s[p].name] == s[p]
  {
    assert TreeAt(dirs, depth, c);
    var up := Parent(dirs, c);
    var s := dirs[up];
    assert TreeAt(dirs, depth, up);
    p :| 2 <= p < |s| && s[p].kind == Folder && s[p].ino == c;
    DotsDiffer(dirs, depth, up, c);
    forall q | 0 <= q < p ensures s[q].ino != c {
      if 2 <= q {
        assert Live(s[p]) && !Live(s[q]) ==> s[q] == EMPTY;
      }
    }
    FindInoIs(s, c, p);
    TableHas(s, p);
    assert Live(s[0]) && Live(s[1]) && Live(s[p]);
  }

  /** "." and ".." of the parent are other directories than the child. */
  lemma DotsDiffer(dirs: Dirs, depth: map<nat, nat>, up: nat, c: nat)
    requires TreeOk(dirs, depth) && up in dirs && c in depth && up in depth && depth[c] == depth[up] + 1
    ensures |dirs[up]| >= 2 && dirs[up][0].ino != c && dirs[up][1].ino != c
  {
    assert TreeAt(dirs, depth, up);
  }

  /** The names from the root to a directory */
  function PathOf(dirs: Dirs, depth: map<nat, nat>, d: nat): seq<string>
    decreases if d in depth then depth[d] else 0
  {
    if d == ROOT || d !in dirs || |dirs[d]| < 2 then [] else
      var up := Parent(dirs, d);
      if d in depth && up in depth && up in dirs && depth[up] < depth[d] && FindIno(dirs[up], d) < |dirs[up]|
      then PathOf(dirs, depth, up) + [dirs[up][FindIno(dirs[up], d)].name] else []
  }

  lemma PathOfChild(dirs: Dirs, depth: map<nat, nat>, c: nat)
    requires TreeOk(dirs, depth) && c in dirs && c != ROOT
    ensures |dirs[c]| >= 2 && Parent(dirs, c) in dirs && c in depth && Parent(dirs, c) in depth && depth[Parent(dirs, c)] < depth[c]
    ensures var up := Parent(dirs, c);
      && FindIno(dirs[up], c) < |dirs[up]|
      && PathOf(dirs, depth, c) == PathOf(dirs, depth, up) + [dirs[up][FindIno(dirs[up], c)].name]
  {
    var p := ChildSlot(dirs, depth, c);
  }

  /** Only directories on the way: where `cs` leads from `d` */
  function Down(dirs: Dirs, d: nat, cs: seq<string>): Option<nat> {
    if cs == [] then Some(d) else
      var m := Down(dirs, d, cs[..|cs| - 1]);
      var c := cs[|cs| - 1];
      if m.Some? && m.value in dirs && c in Table(dirs[m.value]) && Table(dirs[m.value])[c].kind == Folder
      then Some(Table(dirs[m.value])[c].ino) else None
  }

  /** A walk goes through where all names but some last ones lead. */
  lemma {:induction false} WalkThrough(dirs: Dirs, d: nat, searched: string, cs: seq<string>, rest: seq<string>)
    requires Down(dirs, d, cs).Some? && rest != []
    ensures Walk(dirs, d, searched, cs + rest) == Walk(dirs, Down(dirs, d, cs).value, searched + Join(cs), rest)
    decreases |cs|
  {
    if cs == [] {
      assert cs + rest == rest && searched + "" == searched;
    } else {
      DownFirst(dirs, d, cs);
      var e := Table(dirs[d])[cs[0]];
      assert (cs + rest)[1..] == cs[1..] + rest;
      WalkThrough(dirs, e.ino, searched + "/" + cs[0], cs[1..], rest);
      assert cs == [cs[0]] + cs[1..];
      JoinCons(cs[0], cs[1..]);
      assert searched + "/" + cs[0] + Join(cs[1..]) == searched + Join(cs);
    }
  }

  lemma {:induction false} DownFirst(dirs: Dirs, d: nat, cs: seq<string>)
    requires cs != [] && Down(dirs, d, cs).Some?
    ensures d in dirs && cs[0] in Table(dirs[d]) && Table(dirs[d])[cs[0]].kind == Folder
    ensures Down(dirs, Table(dirs[d])[cs[0]].ino, cs[1..]) == Down(dirs, d, cs)
    decreases |cs|
  {
    var n := |cs| - 1;
    if n == 0 {
      assert cs[..0] == [] && cs[1..] == [];
    } else {
      DownFirst(dirs, d, cs[..n]);
      assert cs[..n][1..] == cs[1..][..n - 1];
    }
  }

  lemma {:induction false} PathLeads(dirs: Dirs, depth: map<nat, nat>, d: nat)
    requires TreeOk(dirs, depth) && d in dirs
    ensures Down(dirs, ROOT, PathOf(dirs, depth, d)) == Some(d) && Clean(PathOf(dirs, depth, d))
    decreases if d in depth then depth[d] else 0
  {
    if d != ROOT {
      var p := ChildSlot(dirs, depth, d);
      PathOfChild(dirs, depth, d);
      var up := Parent(dirs, d);
      PathLeads(dirs, depth, up);
      var cs := PathOf(dirs, depth, d);
      assert cs[..|cs| - 1] == PathOf(dirs, depth, up);
    }
  }

  lemma RootPathsParse(path: string)
    requires IsRootPath(path)
    ensures Components(path) == [] || Components(path) == ["."] || Components(path) == [".."]
  {
    ParseShow([]);
    if path != "/" {
      var c := path[1..];
      ParseShow([c]);
      JoinCons(c, []);
      assert [c] + [] == [c] && path == Join([c]);
    }
  }

  /** Looking up the printed path of a directory finds that directory. */
  lemma PathFinds(dirs: Dirs, depth: map<nat, nat>, d: nat)
    requires TreeOk(dirs, depth) && d in dirs
    ensures var r := Search(dirs, Show(PathOf(dirs, depth, d))); r.At? && r.ino == d && r.kind == Folder
    ensures d != ROOT ==> Search(dirs, Show(PathOf(dirs, depth, d))).parent == Parent(dirs, d)
  {
    if d != ROOT {
      var p := ChildSlot(dirs, depth, d);
      PathOfChild(dirs, depth, d);
      PathLeads(dirs, depth, d);
      var up := Parent(dirs, d);
      PathLeads(dirs, depth, up);
      var cs := PathOf(dirs, depth, d);
      ParseShow(cs);
      if IsRootPath(Show(cs)) {
        RootPathsParse(Show(cs));
      }
      WalkThrough(dirs, ROOT, "", PathOf(dirs, depth, up), [dirs[up][p].name]);
    }
  }

  // ----- sys_getcwd and sys_chdir -----

  predicate FindsFolder(dirs: Dirs, path: string) {
    Search(dirs, path).At? && Search(dirs, path).kind == Folder
  }

  function Rev(s: seq<string>): (r: seq<string>) {
    if s == [] then [] else [s[|s| - 1]] + Rev(s[..|s| - 1])
  }

  lemma RevSnoc(s: seq<string>, c: string)
    ensures Rev(s + [c]) == [c] + Rev(s)
  {
    assert (s + [c])[..|s|] == s;
  }

  /** get_parent_dir_i_no and get_child_dir_name: the parent and the name of `c` in it. The
      ASSERT on the parent's entry is proved. */
  method OneUp(dirs: Dirs, c: nat, ghost depth: map<nat, nat>) returns (up: nat, name: string)
    requires TreeOk(dirs, depth) && c in dirs && c != ROOT
    ensures up in dirs && up in depth && c in depth && depth[up] < depth[c] && IsName(name)
    ensures PathOf(dirs, depth, c) == PathOf(dirs, depth, up) + [name]
  {
    ghost var slot := ChildSlot(dirs, depth, c);
    PathOfChild(dirs, depth, c);
    up := dirs[c][1].ino;
    assert TreeAt(dirs, depth, c) && TreeAt(dirs, depth, up);
    assert up < MAX_INODES && dirs[c][1].kind == Folder;
    var p := 0;
    while p < |dirs[up]| && dirs[up][p].ino != c
      invariant 0 <= p <= slot
    {
      p := p + 1;
    }
    name := dirs[up][p].name;
  }

  /** The loop of sys_getcwd from the directory up to the root, which collects the names in
      reverse. It ends because each parent is one level higher. */
  method CollectNames(dirs: Dirs, cwd: nat, ghost depth: map<nat, nat>) returns (reversed: string, ghost names: seq<string>)
    requires TreeOk(dirs, depth) && cwd in dirs && cwd in depth
    ensures reversed == Join(names) && AllNames(names) && PathOf(dirs, depth, cwd) == Rev(names)
  {
    var child := cwd;
    reversed, names := "", [];
    while child != ROOT
      invariant child in dirs && child in depth && reversed == Join(names) && AllNames(names)
      invariant PathOf(dirs, depth, cwd) == PathOf(dirs, depth, child) + Rev(names)
      decreases depth[child]
    {
      var up, name := OneUp(dirs, child, depth);
      reversed := reversed + "/" + name;
      RevSnoc(names, name);
      assert PathOf(dirs, depth, up) + [name] + Rev(names) == PathOf(dirs, depth, up) + Rev(names + [name]);
      assert (names + [name])[..|names|] == names;
      names := names + [name];
      child := up;
    }
  }

  /** The loop of sys_getcwd that turns the names round */
  method TurnRound(reversed0: string, ghost names: seq<string>) returns (buf: string)
    requires reversed0 == Join(names) && AllNames(names)
    ensures buf == Join(Rev(names))
  {
    var reversed := reversed0;
    ghost var left := names;
    buf := "";
    var lastSlash := Strrchr(reversed);
    while lastSlash != -1
      invariant reversed == Join(left) && AllNames(left) && lastSlash == LastSlash(reversed)
      invariant Join(Rev(names)) == buf + Join(Rev(left))
      decreases |left|
    {
      ghost var c, rest := left[|left| - 1], left[..|left| - 1];
      assert left == rest + [c];
      LastSlashOfJoin(rest, c);
      RevSnoc(rest, c);
      JoinCons(c, Rev(rest));
      assert reversed[lastSlash..] == "/" + c;
      buf := buf + reversed[lastSlash..];
      reversed := reversed[..lastSlash];
      left := rest;
      lastSlash := Strrchr(reversed);
    }
    if left != [] {
      assert left == left[..|left| - 1] + [left[|left| - 1]];
      LastSlashOfJoin(left[..|left| - 1], left[|left| - 1]);
    }
  }

  class Process {
    var cwd: nat

    constructor (cwd: nat)
      ensures this.cwd == cwd
    {
      this.cwd := cwd;
    }

    /** sys_getcwd into a buffer of `size` bytes */
    method Getcwd(dirs: Dirs, size: nat, ghost depth: map<nat, nat>) returns (r: Outcome<string>)
      requires TreeOk(dirs, depth) && cwd in dirs
      ensures r.Halt? <==> |Join(PathOf(dirs, depth, cwd))| > size
      ensures r.Done? ==> r.value == Show(PathOf(dirs, depth, cwd))
    {
      assert TreeAt(dirs, depth, cwd);
      if cwd == ROOT {
        return Done("/");
      }
      PathOfChild(dirs, depth, cwd);
      var reversed;
      ghost var names;
      reversed, names := CollectNames(dirs, cwd, depth);
      JoinRevLength(names);
      if !(|reversed| <= size) {
        return Halt;
      }
      var buf := TurnRound(reversed, names);
      return Done(buf);
    }

    /** sys_chdir; `garbage` is what the unfilled entry of search_file happens to hold */
    method Chdir(dirs: Dirs, path: string, garbage: nat, ghost depth: map<nat, nat>) returns (r: Outcome<int>)
      requires TreeOk(dirs, depth) && cwd in dirs
      modifies this
      ensures r.Halt? <==> !IsRootPath(path) && !(IsPath(path) && |path| < MAX_PATH_LEN)
      ensures r.Done? ==> r.value == if FindsFolder(dirs, path) || Search(dirs, path).Undefined? then 0 else -1
      ensures r.Done? && !Search(dirs, path).Undefined? ==>
        cwd in dirs && cwd == if FindsFolder(dirs, path) then Search(dirs, path).ino else old(cwd)
      ensures r.Done? && Search(dirs, path).Undefined? ==> cwd == garbage
    {
      TreeIsClosed(dirs, depth);
      var a := SearchFile(dirs, path);
      if a.Halt? {
        return Halt;
      }
      if a.value.Undefined? {
        cwd := garbage;
        return Done(0);
      }
      if a.value.At? && a.value.kind == Folder {
        FoundExists(dirs, path);
        cwd := a.value.ino;
        return Done(0);
      }
      return Done(-1);
    }

    /** After a sys_chdir that found a directory, sys_getcwd gives a path that leads to it. */
    method ChdirThenGetcwd(dirs: Dirs, path: string, garbage: nat, size: nat, ghost depth: map<nat, nat>) returns (cwdPath: Option<string>)
      requires TreeOk(dirs, depth) && cwd in dirs
      modifies this
      ensures cwdPath.None? ==> !FindsFolder(dirs, path) || !IsPath(path) || |path| >= MAX_PATH_LEN || |Join(PathOf(dirs, depth, Search(dirs, path).ino))| > size
      ensures cwdPath.Some? ==>
        && FindsFolder(dirs, path) && Search(dirs, cwdPath.value).At? && Search(dirs, cwdPath.value).ino == Search(dirs, path).ino
        && Components(cwdPath.value) == PathOf(dirs, depth, Search(dirs, path).ino) && Clean(Components(cwdPath.value))
    {
      TreeIsClosed(dirs, depth);
      UndefinedIff(dirs, path);
      var r := Chdir(dirs, path, garbage, depth);
      if r != Done(0) || OnlySlashes(path) {
        return None;
      }
      var p := Getcwd(dirs, size, depth);
      if p.Halt? {
        return None;
      }
      PathFinds(dirs, depth, cwd);
      PathLeads(dirs, depth, cwd);
      ParseShow(PathOf(dirs, depth, cwd));
      return Some(p.value);
    }
  }

  lemma {:induction false} JoinRevLength(s: seq<string>)
    ensures |Join(Rev(s))| == |Join(s)|
  {
    if s != [] {
      var n := |s| - 1;
      JoinRevLength(s[..n]);
      JoinCons(s[n], Rev(s[..n]));
    }
  }

  /** The paths for which search_file returns what it never filled in: two or more slashes. */
  predicate OnlySlashes(path: string) {
    !IsRootPath(path) && Components(path) == []
  }

  lemma UndefinedIff(dirs: Dirs, path: string)
    requires Closed(dirs)
    ensures Search(dirs, path).Undefined? <==> OnlySlashes(path)
  {
    if Components(path) != [] {
      WalkDefined(dirs, ROOT, "", Components(path));
    }
  }

  lemma {:induction false} WalkDefined(dirs: Dirs, d: nat, searched: string, cs: seq<string>)
    requires Closed(dirs) && d in dirs && cs != []
    ensures !Walk(dirs, d, searched, cs).Undefined?
    decreases |cs|
  {
    if cs[0] in Table(dirs[d]) {
      var e := Table(dirs[d])[cs[0]];
      assert EntryOk(dirs, e);
      if e.kind == Folder && |cs| > 1 {
        WalkDefined(dirs, e.ino, searched + "/" + cs[0], cs[1..]);
      }
    }
  }

  lemma {:induction false} WalkExists(dirs: Dirs, d: nat, searched: string, cs: seq<string>)
    requires Closed(dirs)
    ensures var a := Walk(dirs, d, searched, cs); a.At? && a.kind == Folder ==> a.ino in dirs
    decreases |cs|
  {
    if cs != [] && d in dirs && cs[0] in Table(dirs[d]) {
      var e := Table(dirs[d])[cs[0]];
      assert EntryOk(dirs, e);
      WalkExists(dirs, e.ino, searched + "/" + cs[0], cs[1..]);
    }
  }

  lemma FoundExists(dirs: Dirs, path: string)
    requires Closed(dirs)
    ensures var a := Search(dirs, path); a.At? && a.kind == Folder ==> a.ino in dirs
  {
    WalkExists(dirs, ROOT, "", Components(path));
  }
}
