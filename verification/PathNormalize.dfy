/** Path resolution: __path_normalize and path_is_normalized of fs/path.c. */
module PathNormalize {

  const ENOENT := -2
  const ENOTDIR := -20
  const ELOOP := -40
  const MAX_LINKS := 5

  // ----- strings and components -----

  /** The length of the component a string starts with. */
  function CompLen(s: string): (n: nat)
    ensures n <= |s| && (n < |s| ==> s[n] == '/')
    ensures s != "" && s[0] != '/' ==> n > 0
    ensures forall i :: 0 <= i < n ==> s[i] != '/'
  {
    if s == "" || s[0] == '/' then 0 else 1 + CompLen(s[1..])
  }

  /** The components between slashes, empty ones dropped. */
  function Comps(s: string): seq<string>
    decreases |s|
  {
    if s == "" then []
    else if s[0] == '/' then Comps(s[1..])
    else [s[..CompLen(s)]] + Comps(s[CompLen(s)..])
  }

  function Join(dir: seq<string>): string {
    if dir == [] then "" else Join(dir[..|dir| - 1]) + "/" + dir[|dir| - 1]
  }

  predicate IsComp(c: string) {
    c != "" && '/' !in c
  }

  /** A component that names something, that is neither "." nor "..". */
  predicate IsName(c: string) {
    IsComp(c) && c != "." && c != ".."
  }

  ghost predicate AllNames(dir: seq<string>) {
    forall i :: 0 <= i < |dir| ==> IsName(dir[i])
  }

  predicate EndsInSlash(s: string) {
    s != "" && s[|s| - 1] == '/'
  }

  // ----- the file tree -----

  /** What stat says: whether it is a directory, and what access_check answers for searching it. */
  datatype Node = Node(isDir: bool, searchErr: int)

  /** A fixed tree: the targets of the symbolic links, and what can be stat'ed. */
  datatype Tree = Tree(links: map<string, string>, nodes: map<string, Node>)

  /** The check on a component with a slash after it; a missing one passes. */
  function DirCheck(t: Tree, path: string): int {
    if path !in t.nodes then 0
    else if !t.nodes[path].isDir then ENOTDIR
    else if t.nodes[path].searchErr < 0 then t.nodes[path].searchErr
    else 0
  }

  // ----- resolution, component by component -----

  datatype Outcome = Ok(dir: seq<string>, links: nat) | Err(code: int)

  function Parent(dir: seq<string>): seq<string> {
    if dir == [] then [] else dir[..|dir| - 1]
  }

  /** Is the component just appended followed by a slash? */
  predicate Slashed(rest: seq<string>, slash: bool) {
    rest != [] || slash
  }

  /** The trailing slash of the spliced path; an empty target leaves the slash before it at the end. */
  predicate SplicedSlash(target: string, rest: seq<string>, slash: bool) {
    if rest == [] then target == "" || EndsInSlash(target) else slash
  }

  /**
   Component-wise resolution: drop ".", pop on "..", splice the target of a link in place of the
   link. `slash` says that the path ends in a slash, with what the code makes of that; `links`
   counts the links followed so far.
   */
  function Resolve(t: Tree, dir: seq<string>, todo: seq<string>, slash: bool, follow: bool, links: nat): (r: Outcome)
    requires links <= MAX_LINKS
    ensures r.Ok? ==> links <= r.links <= MAX_LINKS
    decreases MAX_LINKS - links, |todo|
  {
    if todo == [] then Ok(dir, links)
    else if todo[0] == "." then Resolve(t, dir, todo[1..], slash, follow, links)
    else if todo[0] == ".." then Resolve(t, Parent(dir), todo[1..], slash, follow, links)
    else
      var here, rest := Join(dir + [todo[0]]), todo[1..];
      if !follow && rest == [] then Ok(dir + [todo[0]], links)
      else if here in t.links then
        var target := t.links[here];
        if links == MAX_LINKS then Err(ELOOP)
        else Resolve(t, if target != "" && target[0] == '/' then [] else dir, Comps(target) + rest,
                     SplicedSlash(target, rest, slash), follow, links + 1)
      else if Slashed(rest, slash) && DirCheck(t, here) < 0 then Err(DirCheck(t, here))
      else Resolve(t, dir + [todo[0]], rest, slash, follow, links)
  }

  /** What the code does: after a relative link it starts again from the root with the whole path. */
  function Rewalk(t: Tree, dir: seq<string>, todo: seq<string>, slash: bool, follow: bool, links: nat): Outcome
    requires links <= MAX_LINKS
    decreases MAX_LINKS - links, |todo|
  {
    if todo == [] then Ok(dir, links)
    else if todo[0] == "." then Rewalk(t, dir, todo[1..], slash, follow, links)
    else if todo[0] == ".." then Rewalk(t, Parent(dir), todo[1..], slash, follow, links)
    else
      var here, rest := Join(dir + [todo[0]]), todo[1..];
      if !follow && rest == [] then Ok(dir + [todo[0]], links)
      else if here in t.links then
        var target := t.links[here];
        if links == MAX_LINKS then Err(ELOOP)
        else Rewalk(t, [], (if target != "" && target[0] == '/' then [] else dir) + Comps(target) + rest,
                    SplicedSlash(target, rest, slash), follow, links + 1)
      else if Slashed(rest, slash) && DirCheck(t, here) < 0 then Err(DirCheck(t, here))
      else Rewalk(t, dir + [todo[0]], rest, slash, follow, links)
  }

  // ----- components of strings -----

  lemma {:induction false} CompLenIs(s: string, n: nat)
    requires n <= |s| && (n == |s| || s[n] == '/')
    requires forall i :: 0 <= i < n ==> s[i] != '/'
    ensures CompLen(s) == n
  {
    if n > 0 { CompLenIs(s[1..], n - 1); }
  }

  /** A slash separates: the components on its two sides are independent. */
  lemma {:induction false} CompsSplit(a: string, b: string)
    ensures Comps(a + "/" + b) == Comps(a) + Comps(b)
    decreases |a|
  {
    hide CompLen;
    var s := a + "/" + b;
    if a == "" {
      assert s[1..] == b;
    } else if a[0] == '/' {
      assert s[1..] == a[1..] + "/" + b;
      CompsSplit(a[1..], b);
    } else {
      var k := CompLen(a);
      CompLenIs(s, k);
      assert s[..k] == a[..k] && s[k..] == a[k..] + "/" + b;
      CompsSplit(a[k..], b);
    }
  }

  ghost predicate AllComps(todo: seq<string>) {
    forall i :: 0 <= i < |todo| ==> IsComp(todo[i])
  }

  lemma {:induction false} CompsAreComps(s: string)
    ensures AllComps(Comps(s))
    ensures Comps(s) == [] <==> forall i :: 0 <= i < |s| ==> s[i] == '/'
    decreases |s|
  {
    if s == "" {
    } else if s[0] == '/' {
      CompsAreComps(s[1..]);
      assert forall i :: 1 <= i < |s| ==> s[i] == s[1..][i - 1];
    } else {
      CompsAreComps(s[CompLen(s)..]);
    }
  }

  lemma {:induction false} OneComp(c: string)
    requires IsComp(c)
    ensures Comps(c) == [c]
  {
    CompLenIs(c, |c|);
    assert c[..|c|] == c && c[|c|..] == "";
  }

  /** Joining and splitting are inverse on lists of components. */
  lemma {:induction false} CompsOfJoin(dir: seq<string>)
    requires AllComps(dir)
    ensures Comps(Join(dir)) == dir
  {
    if dir != [] {
      var n := |dir| - 1;
      CompsOfJoin(dir[..n]);
      CompsSplit(Join(dir[..n]), dir[n]);
      OneComp(dir[n]);
      assert dir == dir[..n] + [dir[n]];
    }
  }

  // ----- what the walk gives -----

  /** Every prefix is known not to be a link and to be searchable, or is missing. */
  ghost predicate Walkable(t: Tree, dir: seq<string>) {
    forall i :: 0 < i <= |dir| ==> Join(dir[..i]) !in t.links && DirCheck(t, Join(dir[..i])) >= 0
  }

  lemma WalkableExtend(t: Tree, dir: seq<string>, c: string)
    requires Walkable(t, dir) && Join(dir + [c]) !in t.links && DirCheck(t, Join(dir + [c])) >= 0
    ensures Walkable(t, dir + [c])
  {
    var d := dir + [c];
    forall i | 0 < i <= |d| ensures Join(d[..i]) !in t.links && DirCheck(t, Join(d[..i])) >= 0 {
      assert d[..i] == if i <= |dir| then dir[..i] else d;
    }
  }

  lemma WalkableParent(t: Tree, dir: seq<string>)
    requires Walkable(t, dir)
    ensures Walkable(t, Parent(dir))
  {
    var d := Parent(dir);
    forall i | 0 < i <= |d| ensures Join(d[..i]) !in t.links && DirCheck(t, Join(d[..i])) >= 0 {
      assert d[..i] == dir[..i];
    }
  }

  /** Walking again over a directory already walked arrives there, without following a link. */
  lemma {:induction false} WalkAgain(t: Tree, pre: seq<string>, dir: seq<string>, rest: seq<string>, slash: bool,
      follow: bool, links: nat)
    requires links <= MAX_LINKS
    requires AllNames(dir) && Walkable(t, pre + dir)
    ensures Rewalk(t, pre, dir + rest, slash, follow, links) == Rewalk(t, pre + dir, rest, slash, follow, links)
    decreases |dir|
  {
    if dir == [] {
      assert dir + rest == rest && pre + dir == pre;
    } else {
      var todo, next := dir + rest, pre + [dir[0]];
      assert IsName(dir[0]) && todo[0] == dir[0] && todo[1..] == dir[1..] + rest;
      assert (pre + dir)[..|pre| + 1] == next;
      assert next + dir[1..] == pre + dir;
      WalkAgain(t, next, dir[1..], rest, slash, follow, links);
      if !follow && todo[1..] == [] {
        assert rest == [] && pre + dir == next;
      }
    }
  }

  lemma StartOver(t: Tree, base: seq<string>, spliced: seq<string>, rest: seq<string>, slash: bool, follow: bool,
      links: nat)
    requires links <= MAX_LINKS
    requires AllNames(base) && Walkable(t, base)
    ensures Rewalk(t, [], base + spliced + rest, slash, follow, links)
         == Rewalk(t, base, spliced + rest, slash, follow, links)
  {
    assert [] + base == base && base + spliced + rest == base + (spliced + rest);
    WalkAgain(t, [], base, spliced + rest, slash, follow, links);
  }

  /**
   The walk of the code is the component-wise resolution when the start directory was itself
   resolved: starting over after a relative link costs nothing and changes nothing.
   */
  lemma {:induction false} RewalkIsResolve(t: Tree, dir: seq<string>, todo: seq<string>, slash: bool, follow: bool,
      links: nat)
    requires links <= MAX_LINKS
    requires AllNames(dir) && Walkable(t, dir) && AllComps(todo)
    ensures Rewalk(t, dir, todo, slash, follow, links) == Resolve(t, dir, todo, slash, follow, links)
    decreases MAX_LINKS - links, |todo|
  {
    hide Join, DirCheck, Comps, Walkable, SplicedSlash;
    if todo == [] {
    } else if todo[0] == "." {
      RewalkIsResolve(t, dir, todo[1..], slash, follow, links);
    } else if todo[0] == ".." {
      WalkableParent(t, dir);
      RewalkIsResolve(t, Parent(dir), todo[1..], slash, follow, links);
    } else {
      var next, rest := dir + [todo[0]], todo[1..];
      var here := Join(next);
      if !follow && rest == [] {
      } else if here in t.links {
        if links < MAX_LINKS {
          var target := t.links[here];
          var base := if target != "" && target[0] == '/' then [] else dir;
          var more, sl := Comps(target) + rest, SplicedSlash(target, rest, slash);
          WalkableRoot(t);
          StartOver(t, base, Comps(target), rest, sl, follow, links + 1);
          assert AllComps(more) by { AllCompsSplice(target, rest); }
          RewalkIsResolve(t, base, more, sl, follow, links + 1);
        }
      } else if Slashed(rest, slash) {
        if DirCheck(t, here) >= 0 {
          WalkableExtend(t, dir, todo[0]);
          RewalkIsResolve(t, next, rest, slash, follow, links);
        }
      }
    }
  }

  /** No prefix is a link. */
  ghost predicate NoLinks(t: Tree, dir: seq<string>) {
    forall i :: 0 < i <= |dir| ==> Join(dir[..i]) !in t.links
  }

  lemma NoLinksExtend(t: Tree, dir: seq<string>, c: string)
    requires NoLinks(t, dir)
    ensures NoLinks(t, Parent(dir)) && NoLinks(t, [])
    ensures Join(dir + [c]) !in t.links ==> NoLinks(t, dir + [c])
  {
    var d, e := dir + [c], Parent(dir);
    forall i | 0 < i <= |d| && Join(d) !in t.links ensures Join(d[..i]) !in t.links {
      assert d[..i] == if i <= |dir| then dir[..i] else d;
    }
    forall i | 0 < i <= |e| ensures Join(e[..i]) !in t.links {
      assert e[..i] == dir[..i];
    }
  }

  /** Walking again over a directory without links arrives there, unless it may no longer be searched. */
  lemma {:induction false} WalkAgainOrFail(t: Tree, pre: seq<string>, dir: seq<string>, rest: seq<string>,
      slash: bool, follow: bool, links: nat)
    requires links <= MAX_LINKS
    requires AllNames(dir) && NoLinks(t, pre + dir)
    ensures var r := Rewalk(t, pre, dir + rest, slash, follow, links);
      r.Err? || r == Rewalk(t, pre + dir, rest, slash, follow, links)
    decreases |dir|
  {
    if dir == [] {
      assert dir + rest == rest && pre + dir == pre;
    } else {
      var todo, next := dir + rest, pre + [dir[0]];
      assert IsName(dir[0]) && todo[0] == dir[0] && todo[1..] == dir[1..] + rest;
      assert (pre + dir)[..|pre| + 1] == next;
      assert next + dir[1..] == pre + dir;
      WalkAgainOrFail(t, next, dir[1..], rest, slash, follow, links);
      if !follow && todo[1..] == [] {
        assert rest == [] && pre + dir == next;
      }
    }
  }

  lemma StartOverOrFail(t: Tree, base: seq<string>, spliced: seq<string>, rest: seq<string>, slash: bool,
      follow: bool, links: nat)
    requires links <= MAX_LINKS
    requires AllNames(base) && NoLinks(t, base)
    ensures var r := Rewalk(t, [], base + spliced + rest, slash, follow, links);
      r.Err? || r == Rewalk(t, base, spliced + rest, slash, follow, links)
  {
    assert [] + base == base && base + spliced + rest == base + (spliced + rest);
    WalkAgainOrFail(t, [], base, spliced + rest, slash, follow, links);
  }

  /** A successful walk of the code from a directory without links is the component-wise resolution. */
  lemma {:induction false} SuccessIsResolve(t: Tree, dir: seq<string>, todo: seq<string>, slash: bool,
      follow: bool, links: nat)
    requires links <= MAX_LINKS
    requires AllNames(dir) && NoLinks(t, dir) && AllComps(todo)
    ensures var r := Rewalk(t, dir, todo, slash, follow, links);
      r.Ok? ==> r == Resolve(t, dir, todo, slash, follow, links)
    decreases MAX_LINKS - links, |todo|
  {
    hide Join, DirCheck, Comps, NoLinks, SplicedSlash;
    if todo == [] {
    } else if todo[0] == "." {
      SuccessIsResolve(t, dir, todo[1..], slash, follow, links);
    } else if todo[0] == ".." {
      NoLinksExtend(t, dir, "");
      SuccessIsResolve(t, Parent(dir), todo[1..], slash, follow, links);
    } else {
      var next, rest := dir + [todo[0]], todo[1..];
      var here := Join(next);
      NoLinksExtend(t, dir, todo[0]);
      if !follow && rest == [] {
      } else if here in t.links {
        if links < MAX_LINKS {
          var target := t.links[here];
          var base := if target != "" && target[0] == '/' then [] else dir;
          var more, sl := Comps(target) + rest, SplicedSlash(target, rest, slash);
          StartOverOrFail(t, base, Comps(target), rest, sl, follow, links + 1);
          assert AllComps(more) by { AllCompsSplice(target, rest); }
          SuccessIsResolve(t, base, more, sl, follow, links + 1);
        }
      } else {
        SuccessIsResolve(t, next, rest, slash, follow, links);
      }
    }
  }

  /** Two links: "/a" to the root, and "/a/l" to the directory it is in. */
  function LinkedTree(): (t: Tree)
    ensures t.links.Keys == {"/a", "/a/l"} && t.links["/a"] == "/" && t.links["/a/l"] == "."
  {
    Tree(map["/a" := "/", "/a/l" := "."], map[])
  }

  lemma LinkedNames()
    ensures Join(["a"]) == "/a" && Join(["a"] + ["l"]) == "/a/l"
    ensures Comps(".") == ["."] && Comps("/") == []
  {
    JoinExtend([], "a");
    assert [] + ["a"] == ["a"];
    JoinExtend(["a"], "l");
    assert "/a" + "/" + "l" == "/a/l";
    OneComp(".");
    assert "/"[1..] == "";
  }

  lemma LinkedRewalk()
    ensures Rewalk(LinkedTree(), ["a"], ["l"], false, true, 0) == Ok([], 2)
  {
    hide Rewalk, Join, Comps, CompLen, LinkedTree;
    var t := LinkedTree();
    LinkedNames();
    RewalkStep(t, ["a"], "l", [], false, true, 0);
    assert ["l"] + [] == ["l"];
    assert ["a"] + ["."] + [] == ["a"] + ["."];
    RewalkStep(t, [], "a", ["."], false, true, 1);
    assert [] + ["a"] == ["a"];
    assert [] + [] + ["."] == ["."] + [];
    RewalkStep(t, [], ".", [], false, true, 2);
    RewalkDone(t, [], SplicedSlash("/", ["."], SplicedSlash(".", [], false)), true, 2);
  }

  lemma LinkedResolve()
    ensures Resolve(LinkedTree(), ["a"], ["l"], false, true, 0) == Ok(["a"], 1)
  {
    hide Join, Comps, CompLen, LinkedTree;
    var t := LinkedTree();
    LinkedNames();
    assert ["l"][1..] == [] && ["."] + [] == ["."] && ["."][1..] == [];
    assert Resolve(t, ["a"], [], false, true, 1) == Ok(["a"], 1);
  }

  /** With a link in the start directory the two differ: the code resolves that link as well. */
  lemma LinkedStartDiffers()
    ensures exists t: Tree, start: seq<string>, todo: seq<string> ::
      Rewalk(t, start, todo, false, true, 0).Ok? &&
      Rewalk(t, start, todo, false, true, 0) != Resolve(t, start, todo, false, true, 0)
  {
    hide Rewalk, Resolve, LinkedTree;
    LinkedRewalk();
    LinkedResolve();
  }

  /** No prefix of `dir` longer than `start` left at `start` is a link. */
  ghost predicate LinkFree(t: Tree, start: seq<string>, dir: seq<string>) {
    forall i :: 0 < i <= |dir| ==> dir[..i] <= start || Join(dir[..i]) !in t.links
  }

  lemma LinkFreeExtend(t: Tree, start: seq<string>, dir: seq<string>, c: string)
    requires LinkFree(t, start, dir)
    ensures LinkFree(t, start, Parent(dir))
    ensures Join(dir + [c]) !in t.links ==> LinkFree(t, start, dir + [c])
    ensures LinkFree(t, start, Parent(dir + [c]))
  {
    var d := dir + [c];
    assert Parent(d) == dir;
    forall i | 0 < i <= |d| && Join(d) !in t.links ensures d[..i] <= start || Join(d[..i]) !in t.links {
      assert d[..i] == if i <= |dir| then dir[..i] else d;
    }
    var e := Parent(dir);
    forall i | 0 < i <= |e| ensures e[..i] <= start || Join(e[..i]) !in t.links {
      assert e[..i] == dir[..i];
    }
  }

  ghost predicate Arrived(t: Tree, start: seq<string>, follow: bool, links: nat, r: Outcome) {
    r.Ok? ==>
      && AllNames(r.dir)
      && LinkFree(t, start, if follow then r.dir else Parent(r.dir))
      && links <= r.links <= MAX_LINKS
  }

  lemma ArrivedHere(t: Tree, start: seq<string>, dir: seq<string>, follow: bool, links: nat)
    requires links <= MAX_LINKS && AllNames(dir) && LinkFree(t, start, dir)
    ensures Arrived(t, start, follow, links, Ok(dir, links))
  {
    LinkFreeExtend(t, start, dir, "");
  }

  /**
   A successful walk ends at names only, has followed every link on the way but those of the
   start directory (and the last component when not following), and followed at most five.
   */
  lemma {:induction false} RewalkResult(t: Tree, start: seq<string>, dir: seq<string>, todo: seq<string>,
      slash: bool, follow: bool, links: nat)
    requires links <= MAX_LINKS
    requires AllNames(dir) && LinkFree(t, start, dir) && AllComps(todo)
    ensures Arrived(t, start, follow, links, Rewalk(t, dir, todo, slash, follow, links))
    decreases MAX_LINKS - links, |todo|
  {
    hide Join, DirCheck, Comps, LinkFree, SplicedSlash, Arrived;
    if todo == [] {
      ArrivedHere(t, start, dir, follow, links);
    } else if todo[0] == "." {
      RewalkResult(t, start, dir, todo[1..], slash, follow, links);
    } else if todo[0] == ".." {
      LinkFreeExtend(t, start, dir, "");
      RewalkResult(t, start, Parent(dir), todo[1..], slash, follow, links);
    } else {
      var next, rest := dir + [todo[0]], todo[1..];
      LinkFreeExtend(t, start, dir, todo[0]);
      if !follow && rest == [] {
        ArrivedLast(t, start, next, links);
      } else if Join(next) in t.links {
        if links == MAX_LINKS {
          NotArrived(t, start, follow, links, ELOOP);
        } else {
          ResultAfterLink(t, start, dir, rest, t.links[Join(next)], slash, follow, links);
        }
      } else {
        NotArrived(t, start, follow, links, DirCheck(t, Join(next)));
        RewalkResult(t, start, next, rest, slash, follow, links);
      }
    }
  }

  lemma {:induction false} ResultAfterLink(t: Tree, start: seq<string>, dir: seq<string>, rest: seq<string>,
      target: string, slash: bool, follow: bool, links: nat)
    requires links < MAX_LINKS
    requires AllNames(dir) && AllComps(rest)
    ensures Arrived(t, start, follow, links,
      Rewalk(t, [], (if target != "" && target[0] == '/' then [] else dir) + Comps(target) + rest,
             SplicedSlash(target, rest, slash), follow, links + 1))
    decreases MAX_LINKS - links - 1, |dir + Comps(target) + rest| + 1
  {
    hide Rewalk, Comps, SplicedSlash, LinkFree;
    var base := if target != "" && target[0] == '/' then [] else dir;
    var more, sl := base + Comps(target) + rest, SplicedSlash(target, rest, slash);
    CompsAreComps(target);
    AllCompsJoin(base, Comps(target), rest);
    FromRoot(t, start);
    RewalkResult(t, start, [], more, sl, follow, links + 1);
  }

  lemma NotArrived(t: Tree, start: seq<string>, follow: bool, links: nat, code: int)
    ensures Arrived(t, start, follow, links, Err(code))
  {
  }

  lemma ArrivedLast(t: Tree, start: seq<string>, dir: seq<string>, links: nat)
    requires links <= MAX_LINKS && AllNames(dir) && LinkFree(t, start, Parent(dir))
    ensures Arrived(t, start, false, links, Ok(dir, links))
  {
  }

  lemma AllCompsJoin(a: seq<string>, b: seq<string>, c: seq<string>)
    requires AllNames(a) && AllComps(b) && AllComps(c)
    ensures AllComps(a + b + c)
  {
    var s := a + b + c;
    forall i | 0 <= i < |s| ensures IsComp(s[i]) {
      assert i < |a| ==> IsName(a[i]);
    }
  }

  lemma AllCompsSplice(target: string, rest: seq<string>)
    requires AllComps(rest)
    ensures AllComps(Comps(target) + rest)
  {
    CompsAreComps(target);
    AllCompsJoin([], Comps(target), rest);
    assert [] + Comps(target) == Comps(target);
  }

  lemma FromRoot(t: Tree, start: seq<string>)
    ensures LinkFree(t, start, [])
  {
  }

  /** Every prefix but the last walks through; the last may be anything. */
  ghost predicate Settled(t: Tree, dir: seq<string>, follow: bool) {
    && Walkable(t, Parent(dir))
    && (follow && dir != [] ==> Join(dir) !in t.links)
  }

  lemma {:induction false} ResolveSettles(t: Tree, dir: seq<string>, todo: seq<string>, slash: bool, follow: bool,
      links: nat)
    requires links <= MAX_LINKS
    requires AllNames(dir) && Walkable(t, dir) && AllComps(todo)
    ensures var r := Resolve(t, dir, todo, slash, follow, links);
      r.Ok? ==> AllNames(r.dir) && Settled(t, r.dir, follow)
    decreases MAX_LINKS - links, |todo|
  {
    hide Join, DirCheck, Comps, Walkable, SplicedSlash;
    if todo == [] {
      WalkableParent(t, dir);
      NotALink(t, dir);
    } else if todo[0] == "." {
      ResolveSettles(t, dir, todo[1..], slash, follow, links);
    } else if todo[0] == ".." {
      WalkableParent(t, dir);
      ResolveSettles(t, Parent(dir), todo[1..], slash, follow, links);
    } else {
      var next, rest := dir + [todo[0]], todo[1..];
      var here := Join(next);
      assert Parent(next) == dir;
      if !follow && rest == [] {
      } else if here in t.links {
        if links < MAX_LINKS {
          var target := t.links[here];
          var base := if target != "" && target[0] == '/' then [] else dir;
          assert AllComps(Comps(target) + rest) by { AllCompsSplice(target, rest); }
          WalkableRoot(t);
          ResolveSettles(t, base, Comps(target) + rest, SplicedSlash(target, rest, slash), follow, links + 1);
        }
      } else if Slashed(rest, slash) {
        if DirCheck(t, here) >= 0 {
          WalkableExtend(t, dir, todo[0]);
          ResolveSettles(t, next, rest, slash, follow, links);
        }
      }
    }
  }

  lemma WalkableRoot(t: Tree)
    ensures Walkable(t, [])
  {
  }

  lemma NotALink(t: Tree, dir: seq<string>)
    requires Walkable(t, dir)
    ensures dir != [] ==> Join(dir) !in t.links
  {
    assert dir == dir[..|dir|];
  }

  /** Normalizing a settled path again gives it back. */
  lemma WalkSettled(t: Tree, dir: seq<string>, follow: bool)
    requires AllNames(dir) && Settled(t, dir, follow)
    ensures Rewalk(t, [], dir, false, follow, 0) == Ok(dir, 0)
  {
    hide Rewalk, Join, DirCheck, Walkable;
    RewalkDone(t, dir, false, follow, 0);
    if dir != [] {
      var pre, last := Parent(dir), dir[|dir| - 1];
      assert dir == pre + [last] && [] + pre == pre;
      assert IsName(last) && [last] + [] == [last];
      WalkAgain(t, [], pre, [last], false, follow, 0);
      RewalkStep(t, pre, last, [], false, follow, 0);
    }
  }

  /** Normalization is idempotent: the result of a resolution resolves to itself, following no link. */
  lemma ResolveIdempotent(t: Tree, dir: seq<string>, todo: seq<string>, slash: bool, follow: bool)
    requires AllNames(dir) && Walkable(t, dir) && AllComps(todo)
    requires Resolve(t, dir, todo, slash, follow, 0).Ok?
    ensures var d := Resolve(t, dir, todo, slash, follow, 0).dir;
      Rewalk(t, [], Comps(Join(d)), EndsInSlash(Join(d)), follow, 0) == Ok(d, 0)
  {
    var d := Resolve(t, dir, todo, slash, follow, 0).dir;
    ResolveSettles(t, dir, todo, slash, follow, 0);
    WalkSettled(t, d, follow);
    assert forall i :: 0 <= i < |d| ==> IsName(d[i]) ==> IsComp(d[i]);
    CompsOfJoin(d);
    JoinEnds(d);
  }

  lemma JoinEnds(dir: seq<string>)
    requires AllNames(dir)
    ensures !EndsInSlash(Join(dir))
  {
    if dir != [] {
      var last := dir[|dir| - 1];
      assert IsName(last) && last[|last| - 1] in last;
    }
  }

  // ----- what the components mean -----

  /** A dot stays where it is, and two dots go to the parent, or stay at the root. */
  lemma Dots(t: Tree, dir: seq<string>, c: string, rest: seq<string>, slash: bool, follow: bool, links: nat)
    requires links <= MAX_LINKS
    ensures Resolve(t, dir, ["."] + rest, slash, follow, links) == Resolve(t, dir, rest, slash, follow, links)
    ensures Resolve(t, dir + [c], [".."] + rest, slash, follow, links) == Resolve(t, dir, rest, slash, follow, links)
    ensures Resolve(t, [], [".."] + rest, slash, follow, links) == Resolve(t, [], rest, slash, follow, links)
  {
    assert (["."] + rest)[1..] == rest && ([".."] + rest)[1..] == rest;
    assert (dir + [c])[..|dir|] == dir;
  }

  /** Into a directory and out of it again is no step at all. */
  lemma InAndOut(t: Tree, dir: seq<string>, c: string, rest: seq<string>, slash: bool, follow: bool, links: nat)
    requires links <= MAX_LINKS && IsName(c)
    requires Join(dir + [c]) !in t.links && DirCheck(t, Join(dir + [c])) >= 0
    ensures Resolve(t, dir, [c] + [".."] + rest, slash, follow, links) == Resolve(t, dir, rest, slash, follow, links)
  {
    hide Join, DirCheck;
    var todo := [c] + [".."] + rest;
    assert todo[0] == c && todo[1..] == [".."] + rest;
    Dots(t, dir, c, rest, slash, follow, links);
  }

  /** A name that is no link is added; with a slash behind it, it must be a directory that may be searched. */
  lemma Names(t: Tree, dir: seq<string>, c: string, rest: seq<string>, slash: bool, follow: bool, links: nat)
    requires links <= MAX_LINKS && IsName(c) && Join(dir + [c]) !in t.links
    ensures var here, r := Join(dir + [c]), Resolve(t, dir, [c] + rest, slash, follow, links);
      && (here !in t.nodes ==> r == Resolve(t, dir + [c], rest, slash, follow, links))
      && (here in t.nodes && rest != [] ==>
            r == if !t.nodes[here].isDir then Err(ENOTDIR)
                 else if t.nodes[here].searchErr < 0 then Err(t.nodes[here].searchErr)
                 else Resolve(t, dir + [c], rest, slash, follow, links))
      && (rest == [] && (!follow || !slash) ==> r == Ok(dir + [c], links))
  {
    hide Join;
    assert ([c] + rest)[1..] == rest;
    assert Resolve(t, dir + [c], [], slash, follow, links) == Ok(dir + [c], links);
  }

  /**
   A link on the way, or at the end when following, is replaced by its target, read from the root if it
   starts with a slash and else from the directory the link is in. A target at the end brings its own slash.
   */
  lemma Links(t: Tree, dir: seq<string>, c: string, rest: seq<string>, slash: bool, follow: bool, links: nat)
    requires links <= MAX_LINKS && IsName(c) && Join(dir + [c]) in t.links && (follow || rest != [])
    ensures var target, r := t.links[Join(dir + [c])], Resolve(t, dir, [c] + rest, slash, follow, links);
      && (links == MAX_LINKS ==> r == Err(ELOOP))
      && (links < MAX_LINKS && target != "" ==>
            var base := if target[0] == '/' then [] else dir;
            && (rest != [] ==> r == Resolve(t, base, Comps(target) + rest, slash, follow, links + 1))
            && (rest == [] ==>
                  r == Resolve(t, base, Comps(target), target[|target| - 1] == '/', follow, links + 1)))
  {
    hide Join, Comps;
    assert ([c] + rest)[1..] == rest;
    assert Comps(t.links[Join(dir + [c])]) + [] == Comps(t.links[Join(dir + [c])]);
  }

  /** A walk fails only at the sixth link, or at something that is no directory or may not be searched. */
  lemma {:induction false} Failures(t: Tree, dir: seq<string>, todo: seq<string>, slash: bool, follow: bool,
      links: nat)
    requires links <= MAX_LINKS
    ensures var r := Resolve(t, dir, todo, slash, follow, links);
      r.Err? ==>
        || r.code == ELOOP
        || (r.code == ENOTDIR && exists p :: p in t.nodes && !t.nodes[p].isDir)
        || exists p :: p in t.nodes && t.nodes[p].isDir && t.nodes[p].searchErr == r.code < 0
    decreases MAX_LINKS - links, |todo|
  {
    hide Join, Comps;
    if todo != [] {
      var rest := todo[1..];
      if todo[0] == "." {
        Failures(t, dir, rest, slash, follow, links);
      } else if todo[0] == ".." {
        Failures(t, Parent(dir), rest, slash, follow, links);
      } else {
        var here := Join(dir + [todo[0]]);
        if here in t.links && links < MAX_LINKS {
          var target := t.links[here];
          Failures(t, if target != "" && target[0] == '/' then [] else dir, Comps(target) + rest,
                   SplicedSlash(target, rest, slash), follow, links + 1);
        }
        Failures(t, dir + [todo[0]], rest, slash, follow, links);
      }
    }
  }

  /** A link to itself is followed five times and no more. */
  lemma {:induction false} SelfLinkLoops(t: Tree, c: string, slash: bool, links: nat)
    requires links <= MAX_LINKS && IsName(c) && Join([c]) in t.links && t.links[Join([c])] == c
    ensures Resolve(t, [], [c], slash, true, links) == Err(ELOOP)
    decreases MAX_LINKS - links
  {
    hide Join, Comps;
    assert [] + [c] == [c] && [c] + [] == [c];
    Links(t, [], c, [], slash, true, links);
    if links < MAX_LINKS {
      OneComp(c);
      SelfLinkLoops(t, c, c[|c| - 1] == '/', links + 1);
    }
  }

  // ----- a trailing slash -----

  /**
   A path with a slash behind it, as section 4.13 of POSIX.1-2017 reads it: as if "." followed, so
   that its last name is followed and must be a directory to search.
   */
  function Enter(t: Tree, dir: seq<string>, todo: seq<string>, links: nat): Outcome
    requires links <= MAX_LINKS
  {
    Resolve(t, dir, todo + ["."], false, true, links)
  }

  lemma EnterHere(t: Tree, dir: seq<string>, slash: bool, follow: bool, links: nat)
    requires links <= MAX_LINKS
    ensures Resolve(t, dir, ["."], slash, follow, links) == Ok(dir, links)
  {
    assert ["."][1..] == [];
    assert Resolve(t, dir, [], slash, follow, links) == Ok(dir, links);
  }

  /** Resolving a path is entering the directory its front names, and resolving the rest there. */
  lemma {:induction false} ResolveSplit(t: Tree, dir: seq<string>, front: seq<string>, rest: seq<string>, slash: bool,
      follow: bool, links: nat)
    requires links <= MAX_LINKS && rest != []
    ensures var p := Enter(t, dir, front, links);
            Resolve(t, dir, front + rest, slash, follow, links) ==
            if p.Err? then p else Resolve(t, p.dir, rest, slash, follow, p.links)
    decreases MAX_LINKS - links, |front|
  {
    hide Join, DirCheck, Comps;
    if front == [] {
      assert front + rest == rest && front + ["."] == ["."];
      EnterHere(t, dir, false, true, links);
    } else {
      var c, more := front[0], front[1..];
      assert (front + rest)[0] == c && (front + rest)[1..] == more + rest;
      assert (front + ["."])[0] == c && (front + ["."])[1..] == more + ["."];
      if c == "." {
        ResolveSplit(t, dir, more, rest, slash, follow, links);
      } else if c == ".." {
        ResolveSplit(t, Parent(dir), more, rest, slash, follow, links);
      } else {
        var here := Join(dir + [c]);
        if here in t.links {
          if links < MAX_LINKS {
            var target := t.links[here];
            var base := if target != "" && target[0] == '/' then [] else dir;
            assert Comps(target) + (more + rest) == (Comps(target) + more) + rest;
            assert Comps(target) + (more + ["."]) == (Comps(target) + more) + ["."];
            ResolveSplit(t, base, Comps(target) + more, rest, slash, follow, links + 1);
          }
        } else {
          ResolveSplit(t, dir + [c], more, rest, slash, follow, links);
        }
      }
    }
  }

  /** A walk through something that is no directory, or one that may not be searched, fails with that error. */
  lemma ThroughFails(t: Tree, dir: seq<string>, front: seq<string>, c: string, rest: seq<string>, slash: bool,
      follow: bool, links: nat)
    requires links <= MAX_LINKS && IsName(c) && rest != [] && Enter(t, dir, front, links).Ok?
    requires var here := Join(Enter(t, dir, front, links).dir + [c]);
      here !in t.links && here in t.nodes && (!t.nodes[here].isDir || t.nodes[here].searchErr < 0)
    ensures var node := t.nodes[Join(Enter(t, dir, front, links).dir + [c])];
      Resolve(t, dir, front + ([c] + rest), slash, follow, links) ==
      Err(if node.isDir then node.searchErr else ENOTDIR)
  {
    hide Join, Enter, Resolve;
    ResolveSplit(t, dir, front, [c] + rest, slash, follow, links);
    var p := Enter(t, dir, front, links);
    EnterCounts(t, dir, front, links);
    Names(t, p.dir, c, rest, slash, follow, p.links);
  }

  lemma EnterCounts(t: Tree, dir: seq<string>, todo: seq<string>, links: nat)
    requires links <= MAX_LINKS
    ensures var p := Enter(t, dir, todo, links); p.Ok? ==> p.links <= MAX_LINKS
  {
  }

  /**
   The slash behind a path is dropped on the way. Without following, its last name is a link or no
   directory to search. Following, it is a link, and the chain of links that starts there ends at
   no directory to search, in a target that does not end in a slash itself.
   */
  ghost predicate DropsSlash(t: Tree, dir: seq<string>, todo: seq<string>, slash: bool, follow: bool, links: nat)
    requires links <= MAX_LINKS
    decreases MAX_LINKS - links
  {
    todo != [] && todo[|todo| - 1] != "." && todo[|todo| - 1] != ".." &&
    var parent := Enter(t, dir, todo[..|todo| - 1], links);
    parent.Ok? &&
    var here := Join(parent.dir + [todo[|todo| - 1]]);
    if !follow then here in t.links || DirCheck(t, here) < 0
    else if here in t.links then
      parent.links < MAX_LINKS &&
      var target := t.links[here];
      DropsSlash(t, if target != "" && target[0] == '/' then [] else parent.dir, Comps(target),
                 SplicedSlash(target, [], slash), true, parent.links + 1)
    else !slash && DirCheck(t, here) < 0
  }

  /** The last name, with or without a slash behind it, in the directory that the rest of the path has led to. */
  lemma {:induction false} LastNameIff(t: Tree, dir: seq<string>, c: string, slash: bool, follow: bool, links: nat)
    requires links <= MAX_LINKS && c != "." && c != ".."
    ensures Resolve(t, dir, [c], slash, follow, links) == Resolve(t, dir, [c] + ["."], false, true, links) <==>
            var here := Join(dir + [c]);
            if !follow then !(here in t.links || DirCheck(t, here) < 0)
            else if here in t.links then
              links == MAX_LINKS ||
              var target := t.links[here];
              !DropsSlash(t, if target != "" && target[0] == '/' then [] else dir, Comps(target),
                          SplicedSlash(target, [], slash), true, links + 1)
            else !(!slash && DirCheck(t, here) < 0)
    decreases MAX_LINKS - links, 0
  {
    hide Join, DirCheck, Comps, DropsSlash;
    var here, dotted := Join(dir + [c]), [c] + ["."];
    assert dotted[0] == c && dotted[1..] == ["."] && [c][1..] == [];
    EnterHere(t, dir + [c], false, true, links);
    assert Resolve(t, dir + [c], [], slash, follow, links) == Ok(dir + [c], links);
    if here in t.links && links < MAX_LINKS {
      var target := t.links[here];
      assert Comps(target) + [] == Comps(target);
      if follow {
        TrailingSlashIff(t, if target != "" && target[0] == '/' then [] else dir, Comps(target),
                         SplicedSlash(target, [], slash), true, links + 1);
      }
    }
  }

  /** A path is resolved as with a slash behind it exactly when that slash is not dropped. */
  lemma {:induction false} TrailingSlashIff(t: Tree, dir: seq<string>, todo: seq<string>, slash: bool, follow: bool,
      links: nat)
    requires links <= MAX_LINKS
    ensures Resolve(t, dir, todo, slash, follow, links) == Enter(t, dir, todo, links) <==>
            !DropsSlash(t, dir, todo, slash, follow, links)
    decreases MAX_LINKS - links, 1
  {
    hide Join, DirCheck, Comps;
    if todo == [] {
      assert todo + ["."] == ["."];
      EnterHere(t, dir, false, true, links);
    } else {
      var front, c := todo[..|todo| - 1], todo[|todo| - 1];
      var p := Enter(t, dir, front, links);
      assert todo == front + [c] && todo + ["."] == front + ([c] + ["."]);
      ResolveSplit(t, dir, front, [c], slash, follow, links);
      ResolveSplit(t, dir, front, [c] + ["."], false, true, links);
      if p.Ok? {
        if c == "." || c == ".." {
          LastDots(t, p.dir, c, slash, follow, p.links);
        } else {
          LastNameIff(t, p.dir, c, slash, follow, p.links);
        }
      }
    }
  }

  lemma LastDots(t: Tree, dir: seq<string>, c: string, slash: bool, follow: bool, links: nat)
    requires links <= MAX_LINKS && (c == "." || c == "..")
    ensures Resolve(t, dir, [c], slash, follow, links) == Resolve(t, dir, [c] + ["."], false, true, links)
  {
    var next, dotted := if c == "." then dir else Parent(dir), [c] + ["."];
    assert dotted[0] == c && dotted[1..] == ["."] && [c][1..] == [];
    EnterHere(t, next, false, true, links);
    assert Resolve(t, next, [], slash, follow, links) == Ok(next, links);
  }

  /** A regular file "/f", and a link "/l" to it. */
  function FileTree(): (t: Tree)
    ensures t.links.Keys == {"/l"} && t.links["/l"] == "f"
    ensures t.nodes.Keys == {"/f"} && !t.nodes["/f"].isDir
  {
    Tree(map["/l" := "f"], map["/f" := Node(false, 0)])
  }

  lemma FileNames()
    ensures Join([] + ["f"]) == "/f" && Join([] + ["l"]) == "/l" && Comps("f") == ["f"] && !EndsInSlash("f")
  {
    JoinExtend([], "f");
    JoinExtend([], "l");
    OneComp("f");
  }

  /** "f/" is no directory, and neither is "l/": without following, the first passes; following, the second does. */
  lemma SlashDropped()
    ensures Resolve(FileTree(), [], ["f"], true, false, 0) == Ok(["f"], 0)
    ensures Resolve(FileTree(), [], ["l"], true, true, 0) == Ok(["f"], 1)
    ensures Enter(FileTree(), [], ["f"], 0) == Enter(FileTree(), [], ["l"], 0) == Err(ENOTDIR)
  {
    hide Join, Comps, CompLen, FileTree;
    var t := FileTree();
    FileNames();
    assert [] + ["f"] == ["f"];
    assert ["f"][1..] == [] && ["l"][1..] == [] && ["f"] + [] == ["f"];
    assert Resolve(t, ["f"], [], false, true, 1) == Ok(["f"], 1);
    var fd, ld := ["f"] + ["."], ["l"] + ["."];
    assert fd[0] == "f" && fd[1..] == ["."] && ld[0] == "l" && ld[1..] == ["."];
    assert Resolve(t, [], fd, false, true, 1) == Err(ENOTDIR);
  }

  // ----- the code -----

  /** Skip the slashes at `p`. */
  method EatSlashes(path: string, p: nat) returns (q: nat)
    requires p <= |path|
    ensures p <= q <= |path|
    ensures q < |path| ==> path[q] != '/'
    ensures p < q <==> p < |path| && path[p] == '/'
    ensures p < q ==> path[q - 1] == '/'
    ensures Comps(path[q..]) == Comps(path[p..])
  {
    q := p;
    while q < |path| && path[q] == '/'
      invariant p <= q <= |path|
      invariant p < q ==> path[p] == '/' && path[q - 1] == '/'
      invariant Comps(path[q..]) == Comps(path[p..])
    {
      assert path[q..][1..] == path[q + 1..];
      q := q + 1;
    }
  }

  /** Delete the last component of the output, if there is one. */
  method PopComponent(out: string, ghost dir: seq<string>) returns (o: string)
    requires AllNames(dir) && out == Join(dir)
    ensures o == Join(Parent(dir))
  {
    o := out;
    if o != "" {
      var more := true;
      ghost var base := Join(Parent(dir));
      assert IsName(dir[|dir| - 1]) && out == base + ("/" + dir[|dir| - 1]);
      while more
        invariant more ==> |base| < |o| <= |out| && o == out[..|o|]
        invariant !more ==> o == base
        decreases more, |o|
      {
        more := o[|o| - 1] != '/';
        o := o[..|o| - 1];
      }
    }
  }

  /** Copy a component to the output, and pass it. */
  method CopyComponent(path: string, p: nat, out: string) returns (q: nat, o: string)
    requires p < |path| && path[p] != '/'
    ensures p < q <= |path| && (q < |path| ==> path[q] == '/') && path[q - 1] != '/'
    ensures o == out + "/" + path[p..q]
    ensures Comps(path[p..]) == [path[p..q]] + Comps(path[q..])
    ensures IsComp(path[p..q])
  {
    hide Comps;
    q, o := p, out + "/";
    while q < |path| && path[q] != '/'
      invariant p <= q <= |path|
      invariant o == out + "/" + path[p..q]
      invariant forall i :: p <= i < q ==> path[i] != '/'
    {
      o, q := o + [path[q]], q + 1;
    }
    NextComp(path, p, q);
  }

  /** Copy a name, which neither test for dots has caught, and pass the slashes behind it. */
  method NextName(path: string, p: nat, out: string) returns (ghost q: nat, r: nat, o: string)
    requires p < |path| && path[p] != '/'
    requires !(path[p] == '.' && (p + 1 == |path| || path[p + 1] == '/'))
    requires !(path[p] == '.' && p + 1 < |path| && path[p + 1] == '.' && (p + 2 == |path| || path[p + 2] == '/'))
    ensures NameAt(path, p, q, r) && p < q <= r <= |path| && (r < |path| ==> path[r] != '/')
    ensures IsName(path[p..q])
    ensures o == out + "/" + path[p..q]
  {
    hide Comps, IsName;
    var e;
    e, o := CopyComponent(path, p, out);
    q := e;
    r := EatSlashes(path, e);
    NameComp(path, p, e);
  }

  /** How an outcome is reported: an error, or 0 and the path written out. */
  ghost predicate Reports(r: Outcome, err: int, out: string) {
    match r
    case Ok(dir, _) => err == 0 && out == Join(dir)
    case Err(code) => err == code
  }

  /** The directory a walk starts in; "/" counts as none. */
  ghost predicate IsStart(at: string) {
    at == "/" || (AllNames(Comps(at)) && at == Join(Comps(at)))
  }

  lemma NamesOf(dir: seq<string>, c: string)
    requires AllNames(dir)
    ensures AllNames(Parent(dir)) && (IsName(c) ==> AllNames(dir + [c]))
  {
  }

  lemma StartComps(at: string)
    requires IsStart(at)
    ensures AllNames(Comps(at))
    ensures (if at == "/" then "" else at) == Join(Comps(at))
  {
    if at == "/" {
      assert at[1..] == "" && Comps("") == [];
    }
  }

  /** One component of the walk. */
  lemma RewalkStep(t: Tree, dir: seq<string>, c: string, rest: seq<string>, slash: bool, follow: bool, links: nat)
    requires links <= MAX_LINKS
    ensures Rewalk(t, dir, [c] + rest, slash, follow, links) ==
      if c == "." then Rewalk(t, dir, rest, slash, follow, links)
      else if c == ".." then Rewalk(t, Parent(dir), rest, slash, follow, links)
      else if !follow && rest == [] then Ok(dir + [c], links)
      else if Join(dir + [c]) in t.links then
        var target := t.links[Join(dir + [c])];
        if links == MAX_LINKS then Err(ELOOP)
        else Rewalk(t, [], (if target != "" && target[0] == '/' then [] else dir) + Comps(target) + rest,
                    SplicedSlash(target, rest, slash), follow, links + 1)
      else if Slashed(rest, slash) && DirCheck(t, Join(dir + [c])) < 0 then Err(DirCheck(t, Join(dir + [c])))
      else Rewalk(t, dir + [c], rest, slash, follow, links)
  {
    assert ([c] + rest)[1..] == rest;
  }

  lemma RewalkDone(t: Tree, dir: seq<string>, slash: bool, follow: bool, links: nat)
    requires links <= MAX_LINKS
    ensures Rewalk(t, dir, [], slash, follow, links) == Ok(dir, links)
  {
  }

  /** The output once the target is read over the last component, and what is left of the path behind it. */
  function ReadOver(before: string, target: string): string {
    if target != "" && target[0] == '/' then target else before + "/" + target
  }

  function Expand(out: string, tail: string): string {
    if tail == "" then out else out + "/" + tail
  }

  lemma ReadOverComps(dir: seq<string>, target: string)
    requires AllNames(dir)
    ensures Comps(ReadOver(Join(dir), target)) == (if target != "" && target[0] == '/' then [] else dir) + Comps(target)
  {
    assert forall i :: 0 <= i < |dir| ==> IsName(dir[i]) ==> IsComp(dir[i]);
    CompsOfJoin(dir);
    CompsSplit(Join(dir), target);
    assert [] + Comps(target) == Comps(target);
  }

  lemma ExpandComps(out: string, tail: string)
    ensures Comps(Expand(out, tail)) == Comps(out) + Comps(tail)
  {
    if tail == "" {
      assert Comps(out) + [] == Comps(out);
    } else {
      CompsSplit(out, tail);
    }
  }

  lemma ExpandSlash(before: string, target: string, tail: string, slash: bool)
    requires tail != "" ==> Comps(tail) != [] && slash == EndsInSlash(tail)
    ensures var e := Expand(ReadOver(before, target), tail);
      e != "" && EndsInSlash(e) == SplicedSlash(target, Comps(tail), slash)
  {
  }

  /** The walk that is left when the code stands at `p`. */
  ghost function From(t: Tree, dir: seq<string>, path: string, p: nat, follow: bool, links: nat): Outcome
    requires p <= |path| && links <= MAX_LINKS
  {
    Rewalk(t, dir, Comps(path[p..]), EndsInSlash(path), follow, links)
  }

  lemma FromDots(t: Tree, dir: seq<string>, path: string, p: nat, dots: string, follow: bool, links: nat)
    requires p <= |path| && links <= MAX_LINKS && (dots == "." || dots == "..")
    requires dots <= path[p..] && (|path| == p + |dots| || path[p + |dots|] == '/')
    ensures From(t, dir, path, p, follow, links)
         == From(t, if dots == "." then dir else Parent(dir), path, p + |dots|, follow, links)
  {
    DotComp(path, p, dots);
    RewalkStep(t, dir, dots, Comps(path[p + |dots|..]), EndsInSlash(path), follow, links);
  }

  lemma FromSlashes(t: Tree, dir: seq<string>, path: string, p: nat, q: nat, follow: bool, links: nat)
    requires p <= |path| && q <= |path| && links <= MAX_LINKS && Comps(path[p..]) == Comps(path[q..])
    ensures From(t, dir, path, p, follow, links) == From(t, dir, path, q, follow, links)
  {
  }

  lemma FromEnd(t: Tree, dir: seq<string>, path: string, follow: bool, links: nat)
    requires links <= MAX_LINKS
    ensures From(t, dir, path, |path|, follow, links) == Ok(dir, links)
  {
    assert path[|path|..] == "";
    RewalkDone(t, dir, EndsInSlash(path), follow, links);
  }

  /** A name at `p`, ending at `q`, with the next component at `r`. */
  ghost predicate NameAt(path: string, p: nat, q: nat, r: nat) {
    && p < q <= r <= |path|
    && IsName(path[p..q])
    && Comps(path[p..]) == [path[p..q]] + Comps(path[r..])
    && (q < |path| ==> path[q] == '/')
    && path[q - 1] != '/'
    && (q < r <==> q < |path| && path[q] == '/')
    && (q < r ==> path[r - 1] == '/')
    && (r < |path| ==> path[r] != '/')
  }

  lemma FromName(t: Tree, dir: seq<string>, path: string, p: nat, q: nat, r: nat, follow: bool, links: nat)
    requires NameAt(path, p, q, r) && links <= MAX_LINKS && AllNames(dir)
    ensures var next := dir + [path[p..q]];
      var here := Join(next);
      From(t, dir, path, p, follow, links) ==
        if !follow && r == |path| then Ok(next, links)
        else if here in t.links then
          if links == MAX_LINKS then Err(ELOOP)
          else From(t, [], Expand(ReadOver(Join(dir), t.links[here]), path[r..]), 0, follow, links + 1)
        else if path[r - 1] == '/' && DirCheck(t, here) < 0 then Err(DirCheck(t, here))
        else From(t, next, path, r, follow, links)
  {
    hide Rewalk, Join, Comps, SplicedSlash, CompLen, DirCheck, Expand, ReadOver, IsName, AllNames;
    var c, rest, slash := path[p..q], Comps(path[r..]), EndsInSlash(path);
    assert IsComp(c) && c != "." && c != ".." by { NameParts(c); }
    var here := Join(dir + [c]);
    RewalkStep(t, dir, c, rest, slash, follow, links);
    TailComps(path, r);
    assert Slashed(rest, slash) == (path[r - 1] == '/');
    if here in t.links && links < MAX_LINKS {
      var e := Expand(ReadOver(Join(dir), t.links[here]), path[r..]);
      ReadOverComps(dir, t.links[here]);
      ExpandComps(ReadOver(Join(dir), t.links[here]), path[r..]);
      ExpandSlash(Join(dir), t.links[here], path[r..], slash);
      assert e[0..] == e;
    }
  }

  lemma NameParts(c: string)
    requires IsName(c)
    ensures IsComp(c) && c != "." && c != ".."
  {
  }

  /** __path_normalize; `at` is "" for no start directory. */
  method Normalize(t: Tree, at: string, path: string, follow: bool, levels: nat) returns (err: int, out: string)
    requires IsStart(at) && levels <= MAX_LINKS
    ensures path == "" ==> err == ENOENT
    ensures path != "" ==>
      Reports(Rewalk(t, Comps(at), Comps(path), EndsInSlash(path), follow, levels), err, out)
    decreases MAX_LINKS - levels
  {
    hide Rewalk, Join, Comps, CompLen, From, IsName, AllNames, Expand, ReadOver, DirCheck, EndsInSlash, NameAt;
    out := "";
    if path == "" { return ENOENT, out; }
    StartComps(at);
    ghost var dir := Comps(at);
    ghost var goal := From(t, dir, path, 0, follow, levels);
    WholePath(t, dir, path, follow, levels);
    if at != "/" { out := at; }
    var p := EatSlashes(path, 0);
    FromSlashes(t, dir, path, 0, p, follow, levels);
    while p < |path|
      invariant p <= |path| && (p < |path| ==> path[p] != '/')
      invariant AllNames(dir) && out == Join(dir)
      invariant goal == From(t, dir, path, p, follow, levels)
      decreases |path| - p
    {
      if path[p] == '.' && (p + 1 == |path| || path[p + 1] == '/') {
        FromDots(t, dir, path, p, ".", follow, levels);
        var q := EatSlashes(path, p + 1);
        FromSlashes(t, dir, path, p + 1, q, follow, levels);
        p := q;
        continue;
      }
      if path[p] == '.' && p + 1 < |path| && path[p + 1] == '.' && (p + 2 == |path| || path[p + 2] == '/') {
        FromDots(t, dir, path, p, "..", follow, levels);
        out := PopComponent(out, dir);
        NamesOf(dir, "");
        dir := Parent(dir);
        var q := EatSlashes(path, p + 2);
        FromSlashes(t, dir, path, p + 2, q, follow, levels);
        p := q;
        continue;
      }
      ghost var before := out;
      var c := |out|;
      ghost var q;
      var r;
      q, r, out := NextName(path, p, out);
      ghost var next := dir + [path[p..q]];
      JoinExtend(dir, path[p..q]);
      NamesOf(dir, path[p..q]);
      FromName(t, dir, path, p, q, r, follow, levels);
      p := r;
      if follow || p < |path| {
        if out in t.links {
          if levels >= MAX_LINKS { return ELOOP, out; }
          err, out := FollowLink(t, before, out, c, path[p..], follow, levels);
          return;
        }
        if path[p - 1] == '/' {
          err := CheckDirectory(t, out);
          if err < 0 { return; }
        }
      }
      dir := next;
      if p == |path| { FromEnd(t, dir, path, follow, levels); }
    }
    FromEnd(t, dir, path, follow, levels);
    err := 0;
  }

  /** If it exists, it must be a directory that may be searched. */
  method CheckDirectory(t: Tree, here: string) returns (err: int)
    ensures err == DirCheck(t, here)
  {
    err := 0;
    if here in t.nodes {
      if !t.nodes[here].isDir { return ENOTDIR; }
      if t.nodes[here].searchErr < 0 { err := t.nodes[here].searchErr; }
    }
  }

  /** The branch that reads a link over the last component and starts over with the new path. */
  method FollowLink(t: Tree, ghost before: string, here: string, c: nat, tail: string, follow: bool, levels: nat)
      returns (err: int, out: string)
    requires levels < MAX_LINKS && here in t.links
    requires c == |before| < |here| && here[..c + 1] == before + "/"
    ensures Reports(From(t, [], Expand(ReadOver(before, t.links[here]), tail), 0, follow, levels + 1), err, out)
    decreases MAX_LINKS - levels, 0
  {
    hide Rewalk, Join, Comps, CompLen, Reports;
    var target := t.links[here];
    out := here[..c + 1] + target;
    if target != "" && target[0] == '/' { out := target; }
    var expanded := out;
    if tail != "" { expanded := expanded + "/" + tail; }
    assert expanded == Expand(ReadOver(before, target), tail);
    NoStart();
    assert expanded[0..] == expanded;
    err, out := Normalize(t, "", expanded, follow, levels + 1);
  }

  lemma WholePath(t: Tree, dir: seq<string>, path: string, follow: bool, links: nat)
    requires links <= MAX_LINKS
    ensures From(t, dir, path, 0, follow, links) == Rewalk(t, dir, Comps(path), EndsInSlash(path), follow, links)
  {
    assert path[0..] == path;
  }

  lemma DotComp(path: string, p: nat, dots: string)
    requires p <= |path| && (dots == "." || dots == "..")
    requires dots <= path[p..] && (|path| == p + |dots| || path[p + |dots|] == '/')
    ensures Comps(path[p..]) == [dots] + Comps(path[p + |dots|..])
  {
    CompLenIs(path[p..], |dots|);
    assert path[p..][|dots|..] == path[p + |dots|..] && path[p..][..|dots|] == dots;
  }

  /** A component the two tests for dots let pass is a name. */
  lemma NameComp(path: string, p: nat, q: nat)
    requires p < q <= |path| && IsComp(path[p..q]) && (q < |path| ==> path[q] == '/')
    requires !(path[p] == '.' && (p + 1 == |path| || path[p + 1] == '/'))
    requires !(path[p] == '.' && p + 1 < |path| && path[p + 1] == '.' && (p + 2 == |path| || path[p + 2] == '/'))
    ensures IsName(path[p..q])
  {
    var c := path[p..q];
    assert c[0] == path[p];
    assert |c| == 2 ==> c[1] == path[p + 1];
  }

  lemma JoinExtend(dir: seq<string>, c: string)
    ensures Join(dir + [c]) == Join(dir) + "/" + c
  {
    assert (dir + [c])[..|dir|] == dir;
  }

  /** Past the slashes, what is left has a component unless nothing is left, and ends like the path. */
  lemma TailComps(path: string, p: nat)
    requires p <= |path| && (p < |path| ==> path[p] != '/')
    ensures Comps(path[p..]) == [] <==> p == |path|
    ensures p < |path| ==> EndsInSlash(path[p..]) == EndsInSlash(path)
  {
    CompsAreComps(path[p..]);
    if p < |path| { assert path[p..][0] == path[p]; }
  }

  lemma NoStart()
    ensures IsStart("") && Comps("") == []
  {
    assert Join([]) == "";
  }

  // ----- path_is_normalized -----

  ghost predicate SingleSlashes(s: string) {
    forall i :: 0 <= i && i + 1 < |s| && s[i] == '/' ==> s[i + 1] != '/'
  }

  lemma {:induction false} JoinShape(dir: seq<string>)
    requires AllComps(dir)
    ensures SingleSlashes(Join(dir) + "/")
    ensures dir != [] ==> Join(dir) != "" && Join(dir)[0] == '/'
  {
    if dir != [] {
      var pre, last := dir[..|dir| - 1], dir[|dir| - 1];
      JoinShape(pre);
      assert IsComp(last);
      var a, s := Join(pre) + "/", Join(dir) + "/";
      assert s == a + last + "/";
      forall k | |a| <= k < |a| + |last| ensures s[k] != '/' {
        assert s[k] == last[k - |a|] && last[k - |a|] in last;
      }
      assert forall i :: 0 <= i < |a| ==> s[i] == a[i];
      if pre == [] { assert Join(pre) == ""; }
    }
  }

  /** What the test accepts: the path of its own components, or that with one slash behind it. */
  ghost predicate NormalForm(path: string) {
    path == Join(Comps(path)) || path == Join(Comps(path)) + "/"
  }

  lemma NormalFormShape(path: string)
    ensures NormalForm(path) ==> SingleSlashes(path) && (path != "" ==> path[0] == '/')
  {
    CompsAreComps(path);
    JoinShape(Comps(path));
    var j := Join(Comps(path)) + "/";
    if path == Join(Comps(path)) {
      assert path == j[..|path|];
      assert forall i :: 0 <= i < |path| ==> path[i] == j[i];
    }
  }

  lemma AcceptsNormal(path: string, done: seq<string>)
    requires Comps(path) == done && (path == Join(done) || path == Join(done) + "/")
    ensures NormalForm(path)
  {
  }

  lemma SlashComps(path: string, p: nat)
    requires p < |path| && path[p] == '/'
    ensures Comps(path[p..]) == Comps(path[p + 1..])
  {
    assert path[p..][1..] == path[p + 1..];
  }

  lemma NextComp(path: string, p: nat, q: nat)
    requires p < q <= |path| && (q < |path| ==> path[q] == '/')
    requires forall i :: p <= i < q ==> path[i] != '/'
    ensures Comps(path[p..]) == [path[p..q]] + Comps(path[q..])
  {
    CompLenIs(path[p..], q - p);
    assert path[p..][..q - p] == path[p..q] && path[p..][q - p..] == path[q..];
  }

  method SkipComponent(path: string, p: nat) returns (q: nat)
    requires p < |path| && path[p] != '/'
    ensures p < q <= |path| && (q < |path| ==> path[q] == '/')
    ensures Comps(path[p..]) == [path[p..q]] + Comps(path[q..])
  {
    q := p;
    while q < |path| && path[q] != '/'
      invariant p <= q <= |path|
      invariant forall i :: p <= i < q ==> path[i] != '/'
    {
      q := q + 1;
    }
    NextComp(path, p, q);
  }

  method PathIsNormalized(path: string) returns (ok: bool)
    ensures ok <==> NormalForm(path)
  {
    hide Comps, Join, CompLen, NormalForm;
    var p := 0;
    ghost var done: seq<string> := [];
    NoStart();
    NormalFormShape(path);
    assert path[..0] == "" && path[0..] == path && [] + Comps(path) == Comps(path);
    while p < |path|
      invariant p <= |path|
      invariant 0 < p < |path| ==> path[p] == '/'
      invariant Comps(path) == done + Comps(path[p..])
      invariant path[..p] == Join(done) || (p == |path| && path == Join(done) + "/")
    {
      if path[p] != '/' { return false; }
      ghost var at := p;
      p := p + 1;
      if p < |path| && path[p] == '/' { return false; }
      SlashComps(path, at);
      if p < |path| {
        var q := SkipComponent(path, p);
        JoinExtend(done, path[p..q]);
        assert path[..q] == path[..at] + "/" + path[p..q];
        done, p := done + [path[p..q]], q;
      } else {
        assert path == path[..at] + "/";
      }
    }
    assert path[..p] == path && path[p..] == "";
    NoStart();
    assert done + [] == done;
    assert NormalForm(path) by { AcceptsNormal(path, done); }
    ok := true;
  }
}
