/** What search_file of src/fs/fs.c answers, for every path, and where washed paths lead. */
module TreeLaws {
  import opened Machine
  import opened Directory
  import opened Paths
  import opened Tree

  // ----- where a search ends -----

  /** The names before the `k`-th lead through directories, and there the search ends: the name is
      missing, or it is the last, or a regular file. `a` says so. */
  ghost predicate EndsAt(dirs: Dirs, cs: seq<string>, k: nat, a: Answer) {
    && k < |cs| && Down(dirs, ROOT, cs[..k]).Some? && Down(dirs, ROOT, cs[..k]).value in dirs
    && var d := Down(dirs, ROOT, cs[..k]).value; var t := Table(dirs[d]);
    if cs[k] !in t then a == NotFound(d, Join(cs[..k + 1]))
    else (k + 1 == |cs| || t[cs[k]].kind != Folder) && a == At(t[cs[k]].ino, t[cs[k]].kind, d, Join(cs[..k + 1]))
  }

  lemma WalkEnds(dirs: Dirs, cs: seq<string>, k: nat, a: Answer)
    requires EndsAt(dirs, cs, k, a)
    ensures Walk(dirs, ROOT, "", cs) == a
  {
    var before, rest := cs[..k], cs[k..];
    assert cs == before + rest;
    WalkThrough(dirs, ROOT, "", before, rest);
    assert "" + Join(before) == Join(before);
    assert cs[..k + 1][..k] == before && rest[0] == cs[k];
  }

  lemma FindEnd(dirs: Dirs, cs: seq<string>, j: nat) returns (k: nat, a: Answer)
    requires Closed(dirs) && j < |cs| && Down(dirs, ROOT, cs[..j]).Some? && Down(dirs, ROOT, cs[..j]).value in dirs
    ensures EndsAt(dirs, cs, k, a)
    decreases |cs| - j
  {
    var d := Down(dirs, ROOT, cs[..j]).value;
    var t := Table(dirs[d]);
    if cs[j] !in t {
      k, a := j, NotFound(d, Join(cs[..j + 1]));
    } else if j + 1 == |cs| || t[cs[j]].kind != Folder {
      k, a := j, At(t[cs[j]].ino, t[cs[j]].kind, d, Join(cs[..j + 1]));
    } else {
      assert EntryOk(dirs, t[cs[j]]);
      assert cs[..j + 1][..j] == cs[..j];
      k, a := FindEnd(dirs, cs, j + 1);
    }
  }

  /** search_file answers `a` if and only if the search ends so at some component of the path. */
  lemma SearchIff(dirs: Dirs, path: string, a: Answer)
    requires Closed(dirs) && !IsRootPath(path) && Components(path) != []
    ensures Search(dirs, path) == a <==> exists k: nat :: EndsAt(dirs, Components(path), k, a)
  {
    var cs := Components(path);
    if k: nat :| EndsAt(dirs, cs, k, a) {
      WalkEnds(dirs, cs, k, a);
    }
    assert cs[..0] == [];
    var k, b := FindEnd(dirs, cs, 0);
    WalkEnds(dirs, cs, k, b);
  }

  /** "Not found" comes if and only if the names before one lead to a directory that does not have
      it; the searched path is printed up to there. */
  lemma NotFoundIff(dirs: Dirs, path: string, d: nat, searched: string)
    requires Closed(dirs) && !IsRootPath(path) && Components(path) != []
    ensures Search(dirs, path) == NotFound(d, searched) <==> exists k: nat :: Lacks(dirs, Components(path), k, d, searched)
  {
    var cs := Components(path);
    SearchIff(dirs, path, NotFound(d, searched));
    if k: nat :| Lacks(dirs, cs, k, d, searched) {
      assert EndsAt(dirs, cs, k, NotFound(d, searched));
    }
    if k: nat :| EndsAt(dirs, cs, k, NotFound(d, searched)) {
      assert Lacks(dirs, cs, k, d, searched);
    }
  }

  ghost predicate Lacks(dirs: Dirs, cs: seq<string>, k: nat, d: nat, searched: string) {
    k < |cs| && Down(dirs, ROOT, cs[..k]) == Some(d) && d in dirs && cs[k] !in Table(dirs[d]) && searched == Join(cs[..k + 1])
  }

  /** A regular file ends the search, wherever in the path it comes. */
  lemma RegularEnds(dirs: Dirs, path: string, k: nat, d: nat)
    requires Closed(dirs) && !IsRootPath(path) && k < |Components(path)|
    requires Down(dirs, ROOT, Components(path)[..k]) == Some(d) && d in dirs
    requires Components(path)[k] in Table(dirs[d]) && Table(dirs[d])[Components(path)[k]].kind == Regular
    ensures Search(dirs, path) == At(Table(dirs[d])[Components(path)[k]].ino, Regular, d, Join(Components(path)[..k + 1]))
  {
    var cs := Components(path);
    WalkEnds(dirs, cs, k, At(Table(dirs[d])[cs[k]].ino, Regular, d, Join(cs[..k + 1])));
  }

  /** The three names of the root */
  lemma RootFound(dirs: Dirs)
    ensures Search(dirs, "/") == Search(dirs, "/.") == Search(dirs, "/..") == At(ROOT, Folder, ROOT, "")
  {
  }

  // ----- every entry of the tree is found -----

  /** The path of an entry of a directory leads to it: its inode and kind, the directory as its
      parent, and the whole path searched. */
  lemma EntryFound(dirs: Dirs, depth: map<nat, nat>, d: nat, p: nat)
    requires TreeOk(dirs, depth) && d in dirs && 2 <= p < |dirs[d]| && Live(dirs[d][p])
    ensures var e := dirs[d][p]; var path := Show(PathOf(dirs, depth, d) + [e.name]);
      Search(dirs, path) == At(e.ino, e.kind, d, path)
  {
    var e := dirs[d][p];
    var up := PathOf(dirs, depth, d);
    var cs := up + [e.name];
    PlainName(dirs, depth, d, p);
    PathLeads(dirs, depth, d);
    ParseShow(cs);
    assert cs[|cs| - 1] == e.name;
    if IsRootPath(Show(cs)) {
      RootPathsParse(Show(cs));
    }
    assert cs[..|up|] == up && cs[..|cs|] == cs;
    WalkEnds(dirs, cs, |up|, At(e.ino, e.kind, d, Join(cs)));
  }

  lemma PlainName(dirs: Dirs, depth: map<nat, nat>, d: nat, p: nat)
    requires TreeOk(dirs, depth) && d in dirs && 2 <= p < |dirs[d]| && Live(dirs[d][p])
    ensures var e := dirs[d][p]; IsPlain(e.name) && e.name in Table(dirs[d]) && Table(dirs[d])[e.name] == e
  {
    assert TreeAt(dirs, depth, d);
    var s := dirs[d];
    assert Live(s[0]) && Live(s[1]);
    TableHas(s, p);
  }

  // ----- where washed paths lead -----

  lemma DotEntries(dirs: Dirs, depth: map<nat, nat>, d: nat)
    requires TreeOk(dirs, depth) && d in dirs
    ensures var t := Table(dirs[d]); |dirs[d]| >= 2 && "." in t && ".." in t && t["."].kind == Folder == t[".."].kind
    ensures Table(dirs[d])["."].ino == d && Table(dirs[d])[".."].ino == Parent(dirs, d) && Parent(dirs, d) in dirs
  {
    assert TreeAt(dirs, depth, d);
    TableHas(dirs[d], 0);
    TableHas(dirs[d], 1);
  }

  /** A subdirectory's path is its parent's, and its name. */
  lemma ChildPath(dirs: Dirs, depth: map<nat, nat>, d: nat, c: string)
    requires TreeOk(dirs, depth) && d in dirs && IsPlain(c) && c in Table(dirs[d]) && Table(dirs[d])[c].kind == Folder
    ensures var e := Table(dirs[d])[c].ino; e in dirs && PathOf(dirs, depth, e) == PathOf(dirs, depth, d) + [c]
  {
    var s := dirs[d];
    assert TreeAt(dirs, depth, d);
    var p := TableFrom(s, c);
    var e := s[p].ino;
    assert 2 <= p && ChildOk(dirs, d, e);
    PathOfChild(dirs, depth, e);
    var q := ChildSlot(dirs, depth, e);
    assert Live(s[p]) && Live(s[q]) && s[p].ino == s[q].ino;
    assert p == q;
  }

  lemma UpPath(dirs: Dirs, depth: map<nat, nat>, d: nat)
    requires TreeOk(dirs, depth) && d in dirs
    ensures |dirs[d]| >= 2 && Parent(dirs, d) in dirs
    ensures PathOf(dirs, depth, Parent(dirs, d)) == Apply(PathOf(dirs, depth, d), "..")
  {
    assert TreeAt(dirs, depth, d);
    if d != ROOT {
      PathOfChild(dirs, depth, d);
    }
  }

  /** Following "." and ".." entry by entry from the root ends in the directory whose path the
      fold gives. */
  lemma {:induction false} PathFolds(dirs: Dirs, depth: map<nat, nat>, cs: seq<string>)
    requires TreeOk(dirs, depth) && AllNames(cs) && Down(dirs, ROOT, cs).Some?
    ensures Down(dirs, ROOT, cs).value in dirs && Fold(cs) == PathOf(dirs, depth, Down(dirs, ROOT, cs).value)
  {
    if cs != [] {
      var before, c := cs[..|cs| - 1], cs[|cs| - 1];
      assert cs == before + [c];
      PathFolds(dirs, depth, before);
      var m := Down(dirs, ROOT, before).value;
      FoldOnConcat([], before, [c]);
      assert [c][1..] == [] && Fold(cs) == Apply(Fold(before), c);
      DotEntries(dirs, depth, m);
      if c == ".." {
        UpPath(dirs, depth, m);
      } else if c != "." {
        ChildPath(dirs, depth, m, c);
      }
    }
  }

  /** A path that leads somewhere entry by entry is washed to the printed path of that directory,
      and search_file finds the same directory by it. */
  lemma WashLeads(dirs: Dirs, depth: map<nat, nat>, path: string)
    requires TreeOk(dirs, depth) && Down(dirs, ROOT, Components(path)).Some?
    ensures var d := Down(dirs, ROOT, Components(path)).value;
      && d in dirs && Washed(path) == Show(PathOf(dirs, depth, d))
      && Search(dirs, Washed(path)).At? && Search(dirs, Washed(path)).ino == d && Search(dirs, Washed(path)).kind == Folder
  {
    PathFolds(dirs, depth, Components(path));
    PathFinds(dirs, depth, Down(dirs, ROOT, Components(path)).value);
  }
}
