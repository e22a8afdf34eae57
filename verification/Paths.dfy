/** Path names: path_parse of src/fs/fs.c and wash_path of src/user/buildin_cmd.c. */
module Paths {
  import opened Machine

  /** A component: not empty, and without a slash */
  predicate IsName(n: string) {
    n != "" && '/' !in n
  }

  predicate AllNames(cs: seq<string>) {
    forall i :: 0 <= i < |cs| ==> IsName(cs[i])
  }

  function SkipSlashes(p: string): (q: string)
    ensures |q| <= |p| && (q != "" ==> q[0] != '/')
    ensures p != "" && p[0] == '/' ==> |q| < |p|
  {
    if p != "" && p[0] == '/' then SkipSlashes(p[1..]) else p
  }

  /** The characters up to the next slash */
  function FirstName(p: string): (n: string)
    ensures |n| <= |p| && n == p[..|n|] && '/' !in n && (|n| < |p| ==> p[|n|] == '/')
    ensures p != "" && p[0] != '/' ==> n != ""
  {
    if p == "" || p[0] == '/' then "" else [p[0]] + FirstName(p[1..])
  }

  /** The component list of a path */
  function Components(p: string): (cs: seq<string>)
    ensures AllNames(cs)
    decreases |p|
  {
    var q := SkipSlashes(p);
    if q == "" then [] else [FirstName(q)] + Components(q[|FirstName(q)|..])
  }

  /** Every component with a slash before it */
  function Join(cs: seq<string>): string {
    if cs == [] then "" else Join(cs[..|cs| - 1]) + "/" + cs[|cs| - 1]
  }

  /** An absolute path */
  function Show(cs: seq<string>): string {
    if cs == [] then "/" else Join(cs)
  }

  // ----- printing and parsing -----

  lemma {:induction false} JoinConcat(a: seq<string>, b: seq<string>)
    ensures Join(a + b) == Join(a) + Join(b)
  {
    if b == [] {
      assert a + b == a;
    } else {
      var n := |b| - 1;
      assert (a + b)[..|a + b| - 1] == a + b[..n];
      JoinConcat(a, b[..n]);
    }
  }

  lemma JoinCons(c: string, cs: seq<string>)
    ensures Join([c] + cs) == "/" + c + Join(cs)
  {
    JoinConcat([c], cs);
    assert [c][..0] == [];
    assert Join([c]) == "" + "/" + c;
  }

  lemma {:induction false} FirstNameOf(n: string, rest: string)
    requires '/' !in n && (rest == "" || rest[0] == '/')
    ensures FirstName(n + rest) == n
  {
    if n == "" {
      assert n + rest == rest;
    } else {
      assert (n + rest)[1..] == n[1..] + rest;
      FirstNameOf(n[1..], rest);
    }
  }

  /** Parsing undoes printing. */
  lemma {:induction false} ParseShow(cs: seq<string>)
    requires AllNames(cs)
    ensures Components(Join(cs)) == cs && Components(Show(cs)) == cs
    ensures cs != [] ==> Join(cs) != "" && Join(cs)[0] == '/'
  {
    LeadingSlash("");
    if cs == [] {
      assert "/" + "" == "/";
    } else {
      var c, rest := cs[0], cs[1..];
      ParseShow(rest);
      assert cs == [c] + rest;
      JoinCons(c, rest);
      assert Join(cs) == "/" + (c + Join(rest));
      LeadingSlash(c + Join(rest));
      NameFirst(c, Join(rest));
    }
  }

  // ----- path_parse -----

  method SkipTo(p: string) returns (i: nat)
    requires IsPath(p)
    ensures 1 <= i <= |p| && (i < |p| ==> p[i] != '/') && SkipSlashes(p) == p[i..]
  {
    i := 1;
    while i < |p| && p[i] == '/'
      invariant 1 <= i <= |p| && SkipSlashes(p) == SkipSlashes(p[i..])
    {
      assert p[i..][1..] == p[i + 1..];
      i := i + 1;
    }
  }

  method NameEnd(p: string, i: nat) returns (j: nat)
    requires i <= |p|
    ensures i <= j <= |p| && FirstName(p[i..]) == p[i..j] && (j < |p| ==> p[j] == '/') && (i < |p| && p[i] != '/' ==> i < j)
  {
    j := i;
    while j < |p| && p[j] != '/'
      invariant i <= j <= |p| && forall k :: i <= k < j ==> p[k] != '/'
    {
      j := j + 1;
    }
    assert p[i..] == p[i..j] + p[j..];
    FirstNameOf(p[i..j], p[j..]);
  }

  /** What is left to parse */
  function Rest(sub: Option<string>): seq<string> {
    if sub.Some? then Components(sub.value) else []
  }

  predicate IsPath(p: string) {
    p != "" && p[0] == '/'
  }

  predicate IsSub(sub: Option<string>) {
    sub.Some? ==> IsPath(sub.value)
  }

  lemma ComponentsAt(p: string, i: nat, j: nat)
    requires IsPath(p) && 1 <= i <= j <= |p| && SkipSlashes(p) == p[i..] && FirstName(p[i..]) == p[i..j]
    ensures Components(p) == if i == |p| then [] else [p[i..j]] + Components(p[j..])
  {
    assert p[i..][|p[i..j]|..] == p[j..];
  }

  /** path_parse: the first component and the rest of the path, or none at the end. It puts a slash
      over the first character, and if that was the end of the string it goes on into what lies
      `behind` in memory. */
  method PathParse(path: string, behind: string) returns (name: string, rest: Option<string>)
    ensures var p := "/" + if path == "" then behind else path[1..];
      && IsSub(rest) && |name| + (if rest.Some? then |rest.value| else 0) < |p|
      && (IsPath(path) ==> p == path)
      && (Components(p) == [] ==> name == "" && rest == None)
      && (Components(p) != [] ==> IsName(name) && Components(p) == [name] + Rest(rest))
  {
    var p := "/" + if path == "" then behind else path[1..];
    var i := SkipTo(p);
    var j := NameEnd(p, i);
    ComponentsAt(p, i, j);
    name := p[i..j];
    assert Components(p) != [] ==> Components(p)[0] in Components(p);
    if j == |p| {
      assert Components(p[j..]) == [];
      return name, None;
    }
    return name, Some(p[j..]);
  }

  // ----- washing -----

  /** "." is skipped, ".." goes up, and above the root there is the root. */
  function FoldOn(stack: seq<string>, cs: seq<string>): seq<string>
    decreases |cs|
  {
    if cs == [] then stack else FoldOn(Apply(stack, cs[0]), cs[1..])
  }

  function Fold(cs: seq<string>): seq<string> {
    FoldOn([], cs)
  }

  function Apply(stack: seq<string>, c: string): seq<string> {
    if c == "." then stack
    else if c == ".." then if stack == [] then [] else stack[..|stack| - 1]
    else stack + [c]
  }

  predicate Clean(cs: seq<string>) {
    forall i :: 0 <= i < |cs| ==> IsName(cs[i]) && cs[i] != "." && cs[i] != ".."
  }

  lemma {:induction false} FoldClean(stack: seq<string>, cs: seq<string>)
    requires Clean(stack) && AllNames(cs)
    ensures Clean(FoldOn(stack, cs))
    decreases |cs|
  {
    if cs != [] {
      FoldClean(Apply(stack, cs[0]), cs[1..]);
    }
  }

  lemma {:induction false} FoldOfClean(stack: seq<string>, cs: seq<string>)
    requires Clean(cs)
    ensures FoldOn(stack, cs) == stack + cs
    decreases |cs|
  {
    if cs != [] {
      FoldOfClean(stack + [cs[0]], cs[1..]);
      assert stack + [cs[0]] + cs[1..] == stack + cs;
    }
  }

  function LastSlash(p: string): (k: int)
    ensures -1 <= k < |p| && (k >= 0 ==> p[k] == '/') && forall i :: k < i < |p| ==> p[i] != '/'
  {
    if p == "" then -1 else if p[|p| - 1] == '/' then |p| - 1 else LastSlash(p[..|p| - 1])
  }

  /** strrchr of a slash */
  method Strrchr(p: string) returns (k: int)
    ensures k == LastSlash(p)
  {
    k := -1;
    var i := 0;
    while i < |p|
      invariant 0 <= i <= |p| && k == LastSlash(p[..i])
    {
      assert p[..i + 1][..i] == p[..i];
      if p[i] == '/' {
        k := i;
      }
      i := i + 1;
    }
    assert p[..i] == p;
  }

  lemma LastSlashUnique(p: string, k: nat)
    requires k < |p| && p[k] == '/' && forall i :: k < i < |p| ==> p[i] != '/'
    ensures LastSlash(p) == k
  {
    var l := LastSlash(p);
    assert l >= 0;
    assert l <= k && k <= l;
  }

  lemma LastSlashOfJoin(cs: seq<string>, c: string)
    requires IsName(c)
    ensures Join(cs + [c]) == Join(cs) + "/" + c && LastSlash(Join(cs + [c])) == |Join(cs)|
  {
    assert (cs + [c])[..|cs|] == cs;
    var p := Join(cs) + "/" + c;
    forall i | |Join(cs)| < i < |p| ensures p[i] != '/' {
      assert p[i] == c[i - |Join(cs)| - 1];
    }
    LastSlashUnique(p, |Join(cs)|);
  }

  lemma JoinEmptyIff(cs: seq<string>)
    ensures Join(cs) == "" <==> cs == []
  {
  }

  lemma JoinNotSlash(cs: seq<string>)
    requires AllNames(cs)
    ensures Join(cs) != "/"
  {
    if cs != [] {
      assert |Join(cs)| >= 1 + |cs[|cs| - 1]|;
    }
  }

  /** One round of wash_path */
  method WashOne(path: string, name: string, ghost stack: seq<string>) returns (path': string)
    requires AllNames(stack) && path == Show(stack) && IsName(name)
    ensures path' == Show(Apply(stack, name)) && AllNames(Apply(stack, name))
  {
    if name == ".." {
      var k := Strrchr(path);
      if stack == [] {
        LastSlashUnique("/", 0);
      } else {
        var up, c := stack[..|stack| - 1], stack[|stack| - 1];
        assert stack == up + [c];
        LastSlashOfJoin(up, c);
        JoinEmptyIff(up);
      }
      path' := if k != 0 then path[..k] else path[..1];
    } else if name != "." {
      path' := path;
      JoinNotSlash(stack);
      if path != "/" {
        path' := path' + "/";
      }
      path' := path' + name;
      assert (stack + [name])[..|stack|] == stack;
    } else {
      path' := path;
    }
  }

  /** wash_path, of an absolute path */
  method WashPath(p: string) returns (r: string)
    requires p != "" && p[0] == '/'
    ensures r == Washed(p)
  {
    var name, sub := PathParse(p, "");
    if name == "" {
      return "/";
    }
    r := "/";
    ghost var stack: seq<string> := [];
    while name != ""
      invariant AllNames(stack) && r == Show(stack) && IsSub(sub)
      invariant name != "" ==> IsName(name) && Fold(Components(p)) == FoldOn(stack, [name] + Rest(sub))
      invariant name == "" ==> Fold(Components(p)) == stack
      decreases name != "", if sub.Some? then |sub.value| + 1 else 0
    {
      r := WashOne(r, name, stack);
      assert ([name] + Rest(sub))[1..] == Rest(sub);
      stack := Apply(stack, name);
      name := "";
      if sub.Some? {
        name, sub := PathParse(sub.value, "");
      }
    }
  }

  /** A washed path has no "." or ".." left, parses to the folded list, and washing it again
      changes nothing. */
  lemma WashedIsClean(p: string)
    ensures var w := Washed(p); Clean(Components(w)) && Components(w) == Fold(Components(p)) && IsPath(w) && Washed(w) == w
  {
    var cs := Fold(Components(p));
    FoldClean([], Components(p));
    ParseShow(cs);
    FoldOfClean([], cs);
    assert [] + cs == cs;
  }

  // ----- laws of parsing and washing -----

  /** What the components of a path are: slashes only separate, and any number of them alike. */
  lemma ComponentLaws(n: string, p: string)
    requires IsName(n)
    ensures Components("") == [] && Components("/" + p) == Components(p)
    ensures Components(n) == [n] && Components(n + "/" + p) == [n] + Components(p)
  {
    LeadingSlash(p);
    NameFirst(n, "");
    assert n + "" == n;
    NameFirst(n, "/" + p);
    assert n + ("/" + p) == n + "/" + p;
  }

  lemma LeadingSlash(p: string)
    ensures Components("") == [] && Components("/" + p) == Components(p)
  {
    var q := "/" + p;
    assert q[1..] == p && q[0] == '/';
    assert SkipSlashes(q) == SkipSlashes(p);
  }

  lemma NameFirst(n: string, rest: string)
    requires IsName(n) && (rest == "" || rest[0] == '/')
    ensures Components(n + rest) == [n] + Components(rest)
  {
    assert (n + rest)[0] == n[0] && n[0] in n;
    assert SkipSlashes(n + rest) == n + rest;
    FirstNameOf(n, rest);
    assert (n + rest)[|n|..] == rest;
  }

  lemma {:induction false} FoldOnConcat(stack: seq<string>, a: seq<string>, b: seq<string>)
    ensures FoldOn(stack, a + b) == FoldOn(FoldOn(stack, a), b)
    decreases |a|
  {
    if a == [] {
      assert a + b == b;
    } else {
      assert (a + b)[1..] == a[1..] + b;
      FoldOnConcat(Apply(stack, a[0]), a[1..], b);
    }
  }

  predicate IsPlain(c: string) {
    IsName(c) && c != "." && c != ".."
  }

  /** "." changes nothing. */
  lemma DotVanishes(a: seq<string>, b: seq<string>)
    ensures Fold(a + ["."] + b) == Fold(a + b)
  {
    FoldOnConcat([], a, b);
    FoldOnConcat([], a + ["."], b);
    FoldOnConcat([], a, ["."]);
    var stack := Fold(a);
    assert FoldOn(stack, ["."]) == stack;
  }

  /** ".." takes back the name before it. */
  lemma UpTakesBack(a: seq<string>, c: string, b: seq<string>)
    requires IsPlain(c)
    ensures Fold(a + [c, ".."] + b) == Fold(a + b)
  {
    FoldOnConcat([], a, b);
    FoldOnConcat([], a + [c, ".."], b);
    FoldOnConcat([], a, [c, ".."]);
    var stack := Fold(a);
    assert [c, ".."][1..] == [".."] && [".."][1..] == [];
    assert FoldOn(stack, [c, ".."]) == FoldOn(Apply(stack, c), [".."]);
    assert (stack + [c])[..|stack|] == stack;
  }

  /** Above the root there is only the root. */
  lemma RootAbsorbs(b: seq<string>)
    ensures Fold([".."] + b) == Fold(b)
  {
    assert ([".."] + b)[0] == ".." && ([".."] + b)[1..] == b;
  }

  /** Washing goes on from what was washed before. */
  lemma WashInSteps(a: seq<string>, b: seq<string>)
    requires AllNames(a)
    ensures Fold(a + b) == Fold(Fold(a) + b)
  {
    FoldClean([], a);
    FoldOfClean([], Fold(a));
    assert [] + Fold(a) == Fold(a);
    FoldOnConcat([], a, b);
    FoldOnConcat([], Fold(a), b);
  }

  lemma WashedShow(cs: seq<string>)
    requires AllNames(cs)
    ensures Washed(Show(cs)) == Show(Fold(cs))
  {
    ParseShow(cs);
  }

  /** In the terms of wash_path: "/a/.." is "/", and "/a/../b" is "/b", between any paths. */
  lemma WashUp(p: seq<string>, c: string, q: seq<string>)
    requires AllNames(p) && AllNames(q) && IsPlain(c)
    ensures Washed(Show(p + [c, ".."] + q)) == Washed(Show(p + q))
  {
    WashedShow(p + [c, ".."] + q);
    WashedShow(p + q);
    UpTakesBack(p, c, q);
  }

  /** "/./a" is "/a", between any paths. */
  lemma WashDot(p: seq<string>, q: seq<string>)
    requires AllNames(p) && AllNames(q)
    ensures Washed(Show(p + ["."] + q)) == Washed(Show(p + q))
  {
    WashedShow(p + ["."] + q);
    WashedShow(p + q);
    DotVanishes(p, q);
  }

  /** "/../a" is "/a", and a path without dots stays as it is. */
  lemma WashRoot(q: seq<string>)
    requires AllNames(q)
    ensures Washed(Show([".."] + q)) == Washed(Show(q))
    ensures Clean(q) ==> Washed(Show(q)) == Show(q)
  {
    WashedShow([".."] + q);
    WashedShow(q);
    RootAbsorbs(q);
    if Clean(q) {
      FoldOfClean([], q);
      assert [] + q == q;
    }
  }

  /** The path that wash_path makes of `p` */
  function Washed(p: string): string {
    Show(Fold(Components(p)))
  }
}
