/** The recursive directory maker, on a tree of directories and files without symbolic links. */
module MkdirP {
  // ---- Path strings ----

  /** The string without its trailing slashes. */
  function Strip(s: string): (r: string)
    ensures r <= s && (r == [] || r[|r| - 1] != '/') && forall i :: |r| <= i < |s| ==> s[i] == '/'
  {
    if s != [] && s[|s| - 1] == '/' then Strip(s[..|s| - 1]) else s
  }

  /** Where the last component starts: just behind the last slash. */
  function BaseStart(s: string): (b: nat)
    ensures b <= |s| && (b > 0 ==> s[b - 1] == '/') && forall i :: b <= i < |s| ==> s[i] != '/'
  {
    if s == [] then 0 else if s[|s| - 1] == '/' then |s| else BaseStart(s[..|s| - 1])
  }

  /** `dirname`: without a slash "."; otherwise trailing slashes, last component and the slashes before
      it go, and a run of leading slashes becomes "/" ("//" when there are exactly two). */
  function Dirname(path: string): string {
    var u := Strip(path);
    if u == [] then (if path == [] then "." else if path == "//" then "//" else "/")
    else
      var b := BaseStart(u);
      if b == 0 then "."
      else
        var w := Strip(u[..b]);
        if w != [] then w else if b == 2 then "//" else "/"
  }

  /** The paths at which the recursion stops. */
  predicate Base(path: string) { path == "." || path == "/" || path == "//" }

  function Measure(path: string): nat { if Base(path) then 0 else 1 + |path| }

  lemma {:induction false} DirnameShrinks(path: string)
    requires !Base(path)
    ensures Measure(Dirname(path)) < Measure(path) && Dirname(path) != ""
  {
  }

  /** dirname on the paths that POSIX gives, and on leading slashes: two of them stay two, more become one. */
  lemma DirnameExamples()
    ensures Dirname("/usr/lib") == "/usr" && Dirname("/usr/") == "/" && Dirname("usr") == "."
    ensures Dirname("/") == "/" && Dirname("//") == "//" && Dirname("///") == "/" && Dirname("") == "."
    ensures Dirname("//a") == "//" && Dirname("///a") == "/" && Dirname("a//b") == "a"
  {
    DirnameStrings();
    hide Strip, BaseStart;
    assert "/usr/lib"[..5] == "/usr/" && "/usr"[..1] == "/" && "//a"[..2] == "//" && "///a"[..3] == "///";
    assert "a//b"[..3] == "a//";
  }

  lemma DirnameStrings()
    ensures Strip("/usr/lib") == "/usr/lib" && BaseStart("/usr/lib") == 5
    ensures Strip("/usr/") == "/usr" && BaseStart("/usr") == 1 && Strip("usr") == "usr" && BaseStart("usr") == 0
    ensures Strip("/") == "" && Strip("//") == "" && Strip("///") == "" && Strip("") == ""
    ensures Strip("//a") == "//a" && BaseStart("//a") == 2 && Strip("///a") == "///a" && BaseStart("///a") == 3
    ensures Strip("a//b") == "a//b" && BaseStart("a//b") == 3 && Strip("a//") == "a"
  {
    assert "/"[..0] == "" && "//"[..1] == "/" && "///"[..2] == "//" && "/usr/"[..4] == "/usr";
    assert "a//"[..2] == "a/" && "a/"[..1] == "a";
    BaseStartIs("/usr/lib", 5);
    BaseStartIs("/usr", 1);
    BaseStartIs("usr", 0);
    BaseStartIs("//a", 2);
    BaseStartIs("///a", 3);
    BaseStartIs("a//b", 3);
  }

  lemma {:induction false} BaseStartIs(s: string, b: nat)
    requires b <= |s| && (b > 0 ==> s[b - 1] == '/') && forall i :: b <= i < |s| ==> s[i] != '/'
    ensures BaseStart(s) == b
  {
  }

  /** The components, empty ones dropped. */
  function Comps(s: string): (r: seq<string>)
    decreases |s|
  {
    var u := Strip(s);
    if u == [] then []
    else
      var b := BaseStart(u);
      if b == 0 then [u] else Comps(u[..b]) + [u[b..]]
  }

  predicate Absolute(path: string) { path != [] && path[0] == '/' }

  lemma {:induction false} StripIdempotent(s: string)
    ensures Strip(Strip(s)) == Strip(s)
  {
  }

  lemma {:induction false} CompsStrip(s: string)
    ensures Comps(Strip(s)) == Comps(s)
  {
    StripIdempotent(s);
  }

  /** dirname drops the last component, or is "." for a single relative one. */
  lemma {:induction false} DirnameComps(path: string)
    requires !Base(path) && Comps(path) != []
    ensures Absolute(Dirname(path)) == Absolute(path)
    ensures var cs := Comps(path);
            Comps(Dirname(path)) == cs[..|cs| - 1] || (|cs| == 1 && Dirname(path) == "." && !Absolute(path))
  {
    var u := Strip(path);
    var b := BaseStart(u);
    if b > 0 {
      CompsStrip(u[..b]);
      assert u[0] == path[0];
      var w := Strip(u[..b]);
      if w != [] { assert w[0] == u[0]; } else { assert u[..b][0] == '/'; }
    } else {
      assert u[0] == path[0];
    }
  }

  // ---- The tree ----

  datatype Node = Dir | File

  type Place = seq<string>
  type Tree = map<Place, Node>

  const EEXIST: int := 17
  const ENOENT: int := 2
  const ENOTDIR: int := 20

  ghost predicate WellFormed(fs: Tree) {
    && [] in fs && fs[[]] == Dir
    && forall p :: p in fs && p != [] ==> p[..|p| - 1] in fs && fs[p[..|p| - 1]] == Dir
  }

  datatype Walked = At(place: Place) | Fails(errno: int)

  function Enter(fs: Tree, at: Place, name: string): (r: Walked)
    requires at in fs
    ensures r.Fails? ==> r.errno != EEXIST
  {
    if fs[at] == File then Fails(ENOTDIR)
    else if name == "." then At(at)
    else if name == ".." then At(if at == [] then [] else at[..|at| - 1])
    else if at + [name] in fs then At(at + [name])
    else Fails(ENOENT)
  }

  function Walk(fs: Tree, from: Place, cs: seq<string>): (r: Walked)
    ensures r.Fails? ==> r.errno != EEXIST
  {
    if cs == [] then (if from in fs then At(from) else Fails(ENOENT))
    else
      match Walk(fs, from, cs[..|cs| - 1])
      case At(p) => if p in fs then Enter(fs, p, cs[|cs| - 1]) else Fails(ENOENT)
      case Fails(e) => Fails(e)
  }

  function Resolve(fs: Tree, cwd: Place, path: string): Walked {
    if path == [] then Fails(ENOENT) else Walk(fs, if Absolute(path) then [] else cwd, Comps(path))
  }

  predicate IsDir(fs: Tree, cwd: Place, path: string) {
    var r := Resolve(fs, cwd, path);
    r.At? && r.place in fs && fs[r.place] == Dir
  }

  predicate Exists(fs: Tree, cwd: Place, path: string) {
    var r := Resolve(fs, cwd, path);
    r.At? && r.place in fs
  }

  /** The strict ancestors the recursion visits. */
  function Ancestors(path: string): seq<string>
    decreases Measure(path)
  {
    if Base(path) then []
    else
      DirnameShrinks(path);
      [Dirname(path)] + Ancestors(Dirname(path))
  }

  /** Where a path leads once every missing entry on the way has been made a directory; a file on the way
      stops it. */
  function Lead(fs: Tree, from: Place, cs: seq<string>): Walked {
    if cs == [] then At(from)
    else
      match Lead(fs, from, cs[..|cs| - 1])
      case At(p) => if IsFileAt(fs, p) then Fails(ENOTDIR) else At(StepTo(p, cs[|cs| - 1]))
      case Fails(e) => Fails(e)
  }

  predicate IsFileAt(fs: Tree, p: Place) { p in fs && fs[p] == File }

  function StepTo(p: Place, name: string): Place {
    if name == "." then p
    else if name == ".." then (if p == [] then [] else p[..|p| - 1])
    else p + [name]
  }

  function Aim(fs: Tree, cwd: Place, path: string): Walked {
    if path == [] then Fails(ENOENT) else Lead(fs, if Absolute(path) then [] else cwd, Comps(path))
  }

  /** A file where the path leads: it is in the way. */
  predicate FileInTheWay(fs: Tree, cwd: Place, path: string) {
    var r := Aim(fs, cwd, path);
    r.At? && IsFileAt(fs, r.place)
  }

  /** Only directories were added, nothing removed or changed. */
  ghost predicate Grew(fs: Tree, fs': Tree) {
    && (forall p :: p in fs ==> p in fs' && fs'[p] == fs[p])
    && (forall p :: p in fs' && p !in fs ==> fs'[p] == Dir)
  }

  /** Whatever was added is where one of the paths leads. */
  ghost predicate AddedAt(fs: Tree, fs': Tree, cwd: Place, paths: seq<string>) {
    forall p :: p in fs' && p !in fs ==> exists q :: q in paths && Resolve(fs', cwd, q) == At(p)
  }

  lemma {:induction false} WalkStays(fs: Tree, from: Place, cs: seq<string>)
    requires WellFormed(fs)
    ensures Walk(fs, from, cs).At? ==> Walk(fs, from, cs).place in fs
  {
    if cs != [] { WalkStays(fs, from, cs[..|cs| - 1]); }
  }

  /** A walk that succeeds still succeeds, at the same place, in a grown tree. */
  lemma {:induction false} WalkGrew(fs: Tree, fs': Tree, from: Place, cs: seq<string>)
    requires Grew(fs, fs') && Walk(fs, from, cs).At?
    ensures Walk(fs', from, cs) == Walk(fs, from, cs)
  {
    if cs != [] { WalkGrew(fs, fs', from, cs[..|cs| - 1]); }
  }

  /** Where mkdir looks for the new entry: the place dirname leads to. */
  lemma {:induction false} ParentPlace(fs: Tree, cwd: Place, path: string)
    requires WellFormed(fs) && cwd in fs && fs[cwd] == Dir && !Base(path) && Comps(path) != []
    ensures var cs := Comps(path);
            Resolve(fs, cwd, Dirname(path)) == Walk(fs, if Absolute(path) then [] else cwd, cs[..|cs| - 1])
  {
    DirnameComps(path);
    var cs := Comps(path);
    if Dirname(path) == "." && |cs| == 1 {
      assert Comps(".") == ["."] by { assert Strip(".") == "."; }
      assert cs[..0] == [];
      assert ["."][..0] == [];
    }
  }

  /** What can be reached in a grown tree was where the path led in the old one. */
  lemma {:induction false} LeadReached(fs: Tree, fs': Tree, from: Place, cs: seq<string>)
    requires Grew(fs, fs') && WellFormed(fs') && Walk(fs', from, cs).At?
    ensures Lead(fs, from, cs) == Walk(fs', from, cs)
  {
    if cs != [] {
      LeadReached(fs, fs', from, cs[..|cs| - 1]);
    }
  }

  lemma {:induction false} AimReached(fs: Tree, fs': Tree, cwd: Place, path: string)
    requires Grew(fs, fs') && WellFormed(fs') && Exists(fs', cwd, path)
    ensures Aim(fs, cwd, path) == Resolve(fs', cwd, path) && Aim(fs, cwd, path).At?
    ensures IsDir(fs', cwd, path) <==> !FileInTheWay(fs, cwd, path)
  {
    LeadReached(fs, fs', if Absolute(path) then [] else cwd, Comps(path));
  }

  /** A path leads somewhere only if its dirname does, and not to a file. */
  lemma {:induction false} AimParent(fs: Tree, cwd: Place, path: string)
    requires WellFormed(fs) && cwd in fs && fs[cwd] == Dir && !Base(path) && path != ""
    ensures Aim(fs, cwd, path).At? <==> Aim(fs, cwd, Dirname(path)).At? && !FileInTheWay(fs, cwd, Dirname(path))
  {
    var cs, from := Comps(path), if Absolute(path) then [] else cwd;
    if cs == [] {
      assert Strip(path) == [];
      assert path[0] == '/';
      BaseAim(fs, cwd, Dirname(path));
    } else {
      DirnameComps(path);
      PathOfComps(path);
      if Dirname(path) == "." && |cs| == 1 && !Absolute(path) {
        BaseAim(fs, cwd, ".");
        assert cs[..0] == [];
      } else {
        assert Aim(fs, cwd, Dirname(path)) == Lead(fs, from, cs[..|cs| - 1]);
      }
    }
  }

  lemma {:induction false} BaseAim(fs: Tree, cwd: Place, path: string)
    requires WellFormed(fs) && cwd in fs && fs[cwd] == Dir && Base(path)
    ensures Aim(fs, cwd, path) == At(if path == "." then cwd else []) && !FileInTheWay(fs, cwd, path)
  {
    BaseComps(path);
    if path == "." {
      assert ["."][..0] == [];
      assert Lead(fs, cwd, ["."][..0]) == At(cwd);
    }
  }

  /** The path is not empty and no ancestor of it has a file in the way. */
  predicate Passable(fs: Tree, cwd: Place, path: string) {
    path != "" && forall q :: q in Ancestors(path) ==> !FileInTheWay(fs, cwd, q)
  }

  /** A path leads somewhere exactly when it is passable. */
  lemma {:induction false} AimExactly(fs: Tree, cwd: Place, path: string)
    requires WellFormed(fs) && cwd in fs && fs[cwd] == Dir
    ensures Aim(fs, cwd, path).At? <==> Passable(fs, cwd, path)
    decreases Measure(path)
  {
    if Base(path) {
      BaseAim(fs, cwd, path);
    } else {
      DirnameShrinks(path);
      AimExactly(fs, cwd, Dirname(path));
      if path != "" { AimParent(fs, cwd, path); }
    }
  }

  lemma {:induction false} AncestorsUnfold(path: string)
    ensures Base(path) ==> Ancestors(path) == []
    ensures !Base(path) ==> Ancestors(path) == [Dirname(path)] + Ancestors(Dirname(path))
  {
  }

  lemma {:induction false} PassableParent(fs: Tree, cwd: Place, path: string)
    ensures Base(path) ==> Passable(fs, cwd, path)
    ensures !Base(path) && Dirname(path) != "" ==>
              (Passable(fs, cwd, path) <==>
               path != "" && Passable(fs, cwd, Dirname(path)) && !FileInTheWay(fs, cwd, Dirname(path)))
  {
    AncestorsUnfold(path);
  }

  /** Without ".." on the way a file in the way is one that can be seen there. */
  lemma {:induction false} InTheWayIsSeen(fs: Tree, cwd: Place, path: string)
    requires WellFormed(fs) && cwd in fs && fs[cwd] == Dir && ".." !in Comps(path)
    ensures FileInTheWay(fs, cwd, path) <==> Exists(fs, cwd, path) && !IsDir(fs, cwd, path)
  {
    var from := if Absolute(path) then [] else cwd;
    if path != "" && Lead(fs, from, Comps(path)).At? && Lead(fs, from, Comps(path)).place in fs {
      LeadSeen(fs, from, Comps(path));
    }
    if Exists(fs, cwd, path) { LeadReached(fs, fs, from, Comps(path)); }
  }

  /** So without ".." a path is passable iff no ancestor can be seen to be a file. */
  lemma {:induction false} PassableIsSeen(fs: Tree, cwd: Place, path: string)
    requires WellFormed(fs) && cwd in fs && fs[cwd] == Dir && ".." !in Comps(path)
    ensures Passable(fs, cwd, path) <==>
            path != "" && forall q :: q in Ancestors(path) ==> !(Exists(fs, cwd, q) && !IsDir(fs, cwd, q))
  {
    forall q | q in Ancestors(path) ensures FileInTheWay(fs, cwd, q) <==> Exists(fs, cwd, q) && !IsDir(fs, cwd, q) {
      AncestorDots(path, q);
      InTheWayIsSeen(fs, cwd, q);
    }
  }

  lemma {:induction false} AncestorDots(path: string, q: string)
    requires q in Ancestors(path) && ".." !in Comps(path)
    ensures ".." !in Comps(q)
    decreases Measure(path)
  {
    AncestorsUnfold(path);
    DirnameShrinks(path);
    var d, cs := Dirname(path), Comps(path);
    if cs == [] {
      BaseComps(d);
    } else {
      DirnameComps(path);
      if Base(d) { BaseComps(d); } else { assert Comps(d) == cs[..|cs| - 1]; }
    }
    if q != d { AncestorDots(d, q); }
  }

  lemma {:induction false} LeadSeen(fs: Tree, from: Place, cs: seq<string>)
    requires WellFormed(fs) && ".." !in cs && Lead(fs, from, cs).At? && Lead(fs, from, cs).place in fs
    ensures Walk(fs, from, cs) == Lead(fs, from, cs)
  {
    if cs != [] {
      var u := cs[..|cs| - 1];
      var p := Lead(fs, from, u).place;
      assert cs[|cs| - 1] in cs;
      if cs[|cs| - 1] != "." { assert (p + [cs[|cs| - 1]])[..|p|] == p; }
      LeadSeen(fs, from, u);
    }
  }

  lemma {:induction false} BaseIsDir(fs: Tree, cwd: Place, path: string)
    requires WellFormed(fs) && cwd in fs && fs[cwd] == Dir && Base(path)
    ensures IsDir(fs, cwd, path) && Exists(fs, cwd, path)
  {
    BaseComps(path);
    if path == "." {
      assert ["."][..0] == [];
      assert Walk(fs, cwd, ["."][..0]) == At(cwd);
      assert Walk(fs, cwd, ["."]) == Enter(fs, cwd, ".");
    }
  }

  lemma {:induction false} BaseComps(path: string)
    requires Base(path)
    ensures Comps(path) == if path == "." then ["."] else []
  {
    if path == "." {
      assert Strip(".") == "." && BaseStart(".") == 0;
    } else {
      assert Strip("/") == "" by { assert "/"[..0] == ""; }
      assert Strip("//") == "" by { assert "//"[..1] == "/"; }
    }
  }

  /** A path of slashes only leads to the root, and so does its dirname. */
  lemma {:induction false} SlashesAreRoot(fs: Tree, cwd: Place, path: string)
    requires WellFormed(fs) && cwd in fs && fs[cwd] == Dir && path != "" && Comps(path) == []
    ensures Exists(fs, cwd, path) && IsDir(fs, cwd, Dirname(path))
  {
    assert Strip(path) == [];
    assert path[0] == '/';
    BaseIsDir(fs, cwd, Dirname(path));
  }

  /** Once the last component can be entered, the path exists and its dirname is a directory. */
  lemma {:induction false} LastEntered(fs: Tree, cwd: Place, path: string, parent: Place)
    requires WellFormed(fs) && cwd in fs && fs[cwd] == Dir && !Base(path) && Comps(path) != []
    requires var cs := Comps(path);
             && Walk(fs, if Absolute(path) then [] else cwd, cs[..|cs| - 1]) == At(parent)
             && parent in fs && fs[parent] == Dir
             && (cs[|cs| - 1] == "." || cs[|cs| - 1] == ".." || parent + [cs[|cs| - 1]] in fs)
    ensures Exists(fs, cwd, path) && IsDir(fs, cwd, Dirname(path))
    ensures Comps(path)[|Comps(path)| - 1] !in [".", ".."] ==>
              Resolve(fs, cwd, path) == At(parent + [Comps(path)[|Comps(path)| - 1]])
  {
    hide Comps, Dirname, Absolute;
    ParentPlace(fs, cwd, path);
    PathOfComps(path);
    var cs := Comps(path);
    assert Resolve(fs, cwd, path) == Enter(fs, parent, cs[|cs| - 1]);
  }

  /** A directory made where the last component leads. */
  lemma {:induction false} Created(fs: Tree, cwd: Place, path: string, parent: Place)
    requires WellFormed(fs) && cwd in fs && fs[cwd] == Dir && !Base(path) && Comps(path) != []
    requires var cs := Comps(path);
             && Walk(fs, if Absolute(path) then [] else cwd, cs[..|cs| - 1]) == At(parent)
             && parent in fs && fs[parent] == Dir && cs[|cs| - 1] !in [".", ".."] && parent + [cs[|cs| - 1]] !in fs
    ensures var fs' := fs[parent + [Comps(path)[|Comps(path)| - 1]] := Dir];
            && WellFormed(fs') && cwd in fs' && fs'[cwd] == Dir && Grew(fs, fs') && AddedAt(fs, fs', cwd, [path])
            && Exists(fs', cwd, path) && IsDir(fs', cwd, Dirname(path))
  {
    hide Comps, Walk, Dirname, Absolute;
    var cs := Comps(path);
    var from, last := if Absolute(path) then [] else cwd, cs[|cs| - 1];
    var fs' := fs[parent + [last] := Dir];
    WellFormedAdd(fs, parent, last);
    WalkGrew(fs, fs', from, cs[..|cs| - 1]);
    LastEntered(fs', cwd, path, parent);
    assert path in [path];
  }

  /** And where it cannot, nothing is there. */
  lemma {:induction false} NotThere(fs: Tree, cwd: Place, path: string, parent: Place)
    requires WellFormed(fs) && cwd in fs && fs[cwd] == Dir && Comps(path) != []
    requires var cs := Comps(path);
             && Walk(fs, if Absolute(path) then [] else cwd, cs[..|cs| - 1]) == At(parent)
             && parent in fs && cs[|cs| - 1] != "." && cs[|cs| - 1] != ".." && parent + [cs[|cs| - 1]] !in fs
    ensures !Exists(fs, cwd, path)
  {
    hide Comps, Absolute;
  }

  lemma {:induction false} PathOfComps(path: string)
    requires Comps(path) != []
    ensures path != [] && Dirname(path) != []
  {
  }

  lemma {:induction false} WellFormedAdd(fs: Tree, at: Place, name: string)
    requires WellFormed(fs) && at in fs && fs[at] == Dir && at + [name] !in fs
    ensures WellFormed(fs[at + [name] := Dir]) && Grew(fs, fs[at + [name] := Dir])
  {
    var fs' := fs[at + [name] := Dir];
    assert (at + [name])[..|at|] == at;
  }

  lemma {:induction false} GrewTrans(fs0: Tree, fs1: Tree, fs2: Tree)
    requires Grew(fs0, fs1) && Grew(fs1, fs2)
    ensures Grew(fs0, fs2)
  {
  }

  lemma {:induction false} ResolveGrew(fs: Tree, fs': Tree, cwd: Place, q: string)
    requires Grew(fs, fs')
    ensures Resolve(fs, cwd, q).At? ==> Resolve(fs', cwd, q) == Resolve(fs, cwd, q)
    ensures IsDir(fs, cwd, q) ==> IsDir(fs', cwd, q)
  {
    if q != [] && Resolve(fs, cwd, q).At? {
      WalkGrew(fs, fs', if Absolute(q) then [] else cwd, Comps(q));
    }
  }

  lemma {:induction false} AddedChain(fs0: Tree, fs1: Tree, fs2: Tree, cwd: Place, above: seq<string>, path: string)
    requires Grew(fs0, fs1) && Grew(fs1, fs2)
    requires AddedAt(fs0, fs1, cwd, above) && AddedAt(fs1, fs2, cwd, [path])
    ensures AddedAt(fs0, fs2, cwd, [path] + above)
  {
    hide Resolve, IsDir;
    forall p | p in fs2 && p !in fs0 ensures exists q :: q in [path] + above && Resolve(fs2, cwd, q) == At(p) {
      if p in fs1 {
        var q :| q in above && Resolve(fs1, cwd, q) == At(p);
        ResolveGrew(fs1, fs2, cwd, q);
        assert q in [path] + above;
      } else {
        assert path in [path] + above && Resolve(fs2, cwd, path) == At(p);
      }
    }
  }

  // ---- The system and the function ----

  class Os {
    const cwd: Place
    /** What mkdir fails with for a path instead of creating it (no permission, no space...); 0 if not. */
    const fault: string -> int
    var fs: Tree
    var errno: int

    constructor (fs: Tree, cwd: Place, fault: string -> int)
      requires WellFormed(fs) && cwd in fs && fs[cwd] == Dir && forall p :: fault(p) != EEXIST
      ensures Valid() && this.fs == fs && this.cwd == cwd && this.fault == fault
    {
      this.fs, this.cwd, this.fault, errno := fs, cwd, fault, 0;
    }

    ghost predicate Valid()
      reads this
    {
      WellFormed(fs) && cwd in fs && fs[cwd] == Dir && forall p :: fault(p) != EEXIST
    }

    /** mkdir(2). */
    method Mkdir(path: string) returns (ret: int)
      requires Valid()
      modifies this
      ensures Valid() && Grew(old(fs), fs) && AddedAt(old(fs), fs, cwd, [path])
      ensures ret < 0 ==> fs == old(fs)
      ensures !Base(path) && (ret >= 0 || errno == EEXIST) ==>
                Exists(fs, cwd, path) && IsDir(fs, cwd, Dirname(path))
      ensures !Base(path) && path != "" && IsDir(old(fs), cwd, Dirname(path)) ==>
                if Exists(old(fs), cwd, path) then ret < 0 && errno == EEXIST
                else if fault(path) != 0 then ret < 0 && errno == fault(path)
                else ret >= 0
    {
      hide Comps, Walk, Dirname, Absolute, Exists, AddedAt, Grew, WellFormed;
      NothingAdded(fs, cwd, [path]);
      var cs := Comps(path);
      if cs == [] {
        if path != [] { SlashesAreRoot(fs, cwd, path); }
        errno := if path == [] then ENOENT else EEXIST;
        return -1;
      }
      if !Base(path) { ParentPlace(fs, cwd, path); PathOfComps(path); }
      var from := if Absolute(path) then [] else cwd;
      var parent := Walk(fs, from, cs[..|cs| - 1]);
      var last := cs[|cs| - 1];
      if parent.Fails? {
        errno := parent.errno;
        return -1;
      }
      WalkStays(fs, from, cs[..|cs| - 1]);
      if fs[parent.place] == File {
        errno := ENOTDIR;
        return -1;
      }
      if last == "." || last == ".." || parent.place + [last] in fs {
        if !Base(path) { LastEntered(fs, cwd, path, parent.place); }
        errno := EEXIST;
        return -1;
      }
      if !Base(path) { NotThere(fs, cwd, path, parent.place); }
      if fault(path) != 0 {
        errno := fault(path);
        return -1;
      }
      if Base(path) { BaseComps(path); }
      Created(fs, cwd, path, parent.place);
      fs := fs[parent.place + [last] := Dir];
      return 0;
    }

    /** No ancestor of the path, and not the path itself, meets a fault, as far as there is nothing yet. */
    predicate Faultless(fs0: Tree, path: string) {
      forall q :: q in [path] + Ancestors(path) && !Exists(fs0, cwd, q) ==> fault(q) == 0
    }

    /** `nc_mkdir_p`. Success is decided by the tree before the call: without faults the call succeeds iff
        the path is not empty and no ancestor has a file in the way, and what is then at the path is a
        directory iff no file was in the way there either. */
    method MkdirP(path: string) returns (ok: bool)
      requires Valid()
      modifies this
      ensures Valid() && Grew(old(fs), fs) && AddedAt(old(fs), fs, cwd, [path] + Ancestors(path))
      ensures !ok ==> errno != EEXIST
      ensures ok ==> Exists(fs, cwd, path) && forall q :: q in Ancestors(path) ==> IsDir(fs, cwd, q)
      ensures ok ==> Resolve(fs, cwd, path) == Aim(old(fs), cwd, path)
      ensures ok ==> (IsDir(fs, cwd, path) <==> !FileInTheWay(old(fs), cwd, path))
      ensures ok ==> Passable(old(fs), cwd, path)
      ensures Faultless(old(fs), path) && Passable(old(fs), cwd, path) ==> ok
      decreases Measure(path)
    {
      hide Resolve, IsDir, Exists, AddedAt, Dirname, Aim, FileInTheWay, Ancestors, Faultless, Passable;
      PassableParent(fs, cwd, path);
      if path == "." || path == "/" || path == "//" {
        AncestorsUnfold(path);
        BaseIsDir(fs, cwd, path);
        NothingAdded(fs, cwd, [path] + Ancestors(path));
        AimReached(fs, fs, cwd, path);
        return true;
      }
      DirnameShrinks(path);
      AncestorsUnfold(path);
      FaultlessParent(fs, path);
      var above := MkdirP(Dirname(path));
      ghost var fs1 := fs;
      if !above && errno != EEXIST {
        AddedMore(old(fs), fs, cwd, Ancestors(path), path);
        return false;
      }
      var ret := Mkdir(path);
      GrewTrans(old(fs), fs1, fs);
      AddedChain(old(fs), fs1, fs, cwd, Ancestors(path), path);
      forall q | IsDir(fs1, cwd, q) ensures IsDir(fs, cwd, q) { ResolveGrew(fs1, fs, cwd, q); }
      StillExists(old(fs), fs1, cwd, path);
      ok := !(ret < 0 && errno != EEXIST);
      NowhereIsMissing(fs, cwd);
      if ok {
        AimReached(old(fs), fs, cwd, path);
        AimExactly(old(fs), cwd, path);
      }
    }

    lemma {:induction false} FaultlessParent(fs0: Tree, path: string)
      requires !Base(path) && Dirname(path) != ""
      ensures Faultless(fs0, path) ==>
                (Exists(fs0, cwd, path) || fault(path) == 0) && Faultless(fs0, Dirname(path))
    {
      hide Exists;
      AncestorsUnfold(path);
    }

    lemma {:induction false} StillExists(fs: Tree, fs': Tree, cwd: Place, q: string)
      requires Grew(fs, fs')
      ensures Exists(fs, cwd, q) ==> Exists(fs', cwd, q)
    {
      ResolveGrew(fs, fs', cwd, q);
    }

    lemma {:induction false} NowhereIsMissing(fs: Tree, cwd: Place)
      ensures !Exists(fs, cwd, "")
    {
    }

    lemma {:induction false} NothingAdded(fs: Tree, cwd: Place, paths: seq<string>)
      ensures Grew(fs, fs) && AddedAt(fs, fs, cwd, paths)
    {
    }

    lemma {:induction false} AddedMore(fs0: Tree, fs1: Tree, cwd: Place, above: seq<string>, path: string)
      requires AddedAt(fs0, fs1, cwd, above)
      ensures AddedAt(fs0, fs1, cwd, [path] + above)
    {
      forall p | p in fs1 && p !in fs0 ensures exists q :: q in [path] + above && Resolve(fs1, cwd, q) == At(p) {
        var q :| q in above && Resolve(fs1, cwd, q) == At(p);
        assert q in [path] + above;
      }
    }
  }

  lemma {:induction false} LeadNone(fs: Tree, from: Place)
    ensures Lead(fs, from, []) == At(from)
  {
  }

  /** A tree with one file in its root. */
  function OneFile(): Tree { map[[] := Dir, ["f"] := File] }

  lemma OneFileFits()
    ensures WellFormed(OneFile()) && OneFile()[[]] == Dir && IsFileAt(OneFile(), ["f"]) && ["a"] !in OneFile()
  {
    assert ["f"][..0] == [];
  }

  lemma PlainExample()
    ensures WellFormed(OneFile()) && Passable(OneFile(), [], "f") && FileInTheWay(OneFile(), [], "f")
  {
    hide Comps, Dirname, Lead, Ancestors, Strip, BaseStart, OneFile, WellFormed, IsFileAt, FileInTheWay;
    OneFileFits();
    PlainParts();
    AncestorsUnfold("f");
    AncestorsUnfold(".");
    BaseAim(OneFile(), [], ".");
    PlainLeads(OneFile());
  }

  lemma {:induction false} PlainLeads(fs: Tree)
    requires [] in fs && fs[[]] == Dir && IsFileAt(fs, ["f"])
    ensures FileInTheWay(fs, [], "f")
  {
    hide Comps, Lead, IsFileAt;
    PlainParts();
    LeadNone(fs, []);
    LeadNext(fs, [], [], "f");
    NoFileAtDir(fs, []);
    assert [] + ["f"] == ["f"];
  }

  lemma {:induction false} NoFileAtDir(fs: Tree, p: Place)
    requires p in fs && fs[p] == Dir
    ensures !IsFileAt(fs, p)
  {
  }

  lemma PlainParts()
    ensures Comps("f") == ["f"] && Dirname("f") == "."
  {
    assert Strip("f") == "f" && BaseStart("f") == 0;
  }

  lemma DottedStrings()
    ensures Strip("a") == "a" && Strip("a/") == "a" && BaseStart("a") == 0
    ensures Strip("a/..") == "a/.." && Strip("a/../") == "a/.." && BaseStart("a/..") == 2
    ensures Strip("a/../f") == "a/../f" && BaseStart("a/../f") == 5
  {
    assert "a/"[..1] == "a" && "a/../"[..4] == "a/..";
    assert "a/.."[..3] == "a/." && "a/."[..2] == "a/" && "a/../f"[..5] == "a/../";
  }

  lemma DottedParts()
    ensures Comps("a") == ["a"] && Comps("a/..") == ["a", ".."] && Comps("a/../f") == ["a", "..", "f"]
    ensures Dirname("a") == "." && Dirname("a/..") == "a" && Dirname("a/../f") == "a/.."
  {
    DottedStrings();
    hide Strip, BaseStart;
    assert "a/.."[..2] == "a/" && "a/.."[2..] == ".." && "a/../f"[..5] == "a/../" && "a/../f"[5..] == "f";
    assert Comps("a/") == ["a"];
    assert Comps("a/..") == ["a"] + [".."];
    assert Comps("a/../") == ["a", ".."];
  }

  lemma {:induction false} DottedLeads(fs: Tree)
    requires [] in fs && fs[[]] == Dir && ["a"] !in fs
    ensures Lead(fs, [], ["a"]) == At(["a"]) && Lead(fs, [], ["a", ".."]) == At([])
    ensures Lead(fs, [], ["a", "..", "f"]) == At(["f"]) && Walk(fs, [], ["a", "..", "f"]).Fails?
  {
    hide Lead, Walk;
    assert [] + ["a"] == ["a"] && ["a"] + [".."] == ["a", ".."] && ["a", ".."] + ["f"] == ["a", "..", "f"];
    assert [] + ["f"] == ["f"];
    LeadNone(fs, []);
    WalkNone(fs, []);
    LeadNext(fs, [], [], "a");
    LeadNext(fs, [], ["a"], "..");
    LeadNext(fs, [], ["a", ".."], "f");
  }

  lemma {:induction false} WalkNone(fs: Tree, from: Place)
    requires from in fs
    ensures Walk(fs, from, []) == At(from)
  {
  }

  lemma {:induction false} LeadNext(fs: Tree, from: Place, cs: seq<string>, name: string)
    ensures Lead(fs, from, cs + [name]) ==
            match Lead(fs, from, cs)
            case At(p) => if IsFileAt(fs, p) then Fails(ENOTDIR) else At(StepTo(p, name))
            case Fails(e) => Fails(e)
    ensures Walk(fs, from, cs + [name]) ==
            match Walk(fs, from, cs)
            case At(p) => if p in fs then Enter(fs, p, name) else Fails(ENOENT)
            case Fails(e) => Fails(e)
  {
    assert (cs + [name])[..|cs|] == cs;
  }

  lemma DottedExample()
    ensures Passable(OneFile(), [], "a/../f") && FileInTheWay(OneFile(), [], "a/../f")
    ensures !Exists(OneFile(), [], "a/../f") && "a" in Ancestors("a/../f")
  {
    hide Comps, Dirname, Lead, Walk, Ancestors, BaseStart, Strip, OneFile, WellFormed;
    OneFileFits();
    DottedParts();
    DottedLeads(OneFile());
    BaseAim(OneFile(), [], ".");
    AncestorsUnfold("a/../f");
    AncestorsUnfold("a/..");
    AncestorsUnfold("a");
    AncestorsUnfold(".");
  }

  /** With a file where the path leads the call succeeds, and what is there is no directory: on the file's own
      path, and on one that goes through a directory the call has to make first. */
  method FileInTheWayExample() returns (plain: bool, dotted: bool, direct: Os, around: Os)
    ensures plain && Exists(direct.fs, direct.cwd, "f") && !IsDir(direct.fs, direct.cwd, "f")
    ensures dotted && Exists(around.fs, around.cwd, "a/../f") && !IsDir(around.fs, around.cwd, "a/../f")
    ensures !Exists(OneFile(), [], "a/../f") && IsDir(around.fs, around.cwd, "a")
  {
    hide Resolve, IsDir, Exists, FileInTheWay, Ancestors, Aim, Comps, Dirname, Passable, OneFile;
    OneFileFits();
    PlainExample();
    DottedExample();
    direct := new Os(OneFile(), [], _ => 0);
    plain := direct.MkdirP("f");
    around := new Os(OneFile(), [], _ => 0);
    dotted := around.MkdirP("a/../f");
  }
}
