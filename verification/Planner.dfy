/** The incremental planner: which tarballs have to be made, given both listings. */
module Planner {
  import opened Naming

  /** A line of the source listing, and of the destination listing (".tar" already removed). */
  datatype SrcLine = SrcLine(path: string, time: real, kind: string)
  datatype DestLine = DestLine(name: string, time: real)

  /** What is known about a tarball name. */
  datatype Item = Item(srcname: string, time: real, kind: string, done: bool)

  /** One line of output: a tarball to make. */
  datatype Job = Job(srcname: string, name: string, kind: string)

  // ---- What has to be made, by definition ----

  /** The source listing as a table; a later line for the same name replaces the earlier one. */
  function Sources(lines: seq<SrcLine>): map<string, Item>
    requires forall i :: 0 <= i < |lines| ==> TarName(lines[i].path).Some?
  {
    if lines == [] then map[]
    else
      var l := lines[|lines| - 1];
      Sources(lines[..|lines| - 1])[TarName(l.path).value := Item(l.path, l.time, l.kind, false)]
  }

  /** Line i is the last one for the name; -1 means that there is none. */
  predicate LastLine(lines: seq<SrcLine>, name: string, i: int)
    requires forall j :: 0 <= j < |lines| ==> TarName(lines[j].path).Some?
  {
    && -1 <= i < |lines|
    && (i >= 0 ==> TarName(lines[i].path).value == name)
    && forall j :: i < j < |lines| ==> TarName(lines[j].path).value != name
  }

  /** The table has exactly the names of the listing, each with the data of its last line. */
  lemma {:induction false} SourcesMeaning(lines: seq<SrcLine>, name: string) returns (i: int)
    requires forall j :: 0 <= j < |lines| ==> TarName(lines[j].path).Some?
    ensures -1 <= i < |lines| && LastLine(lines, name, i) && (name in Sources(lines) <==> i >= 0)
    ensures i >= 0 ==> Sources(lines)[name] == Item(lines[i].path, lines[i].time, lines[i].kind, false)
  {
    hide TarName;
    var n := |lines| - 1;
    if lines == [] {
      i := -1;
    } else if TarName(lines[n].path).value == name {
      i := n;
    } else {
      i := SourcesMeaning(lines[..n], name);
      assert forall j :: 0 <= j < n ==> lines[..n][j] == lines[j];
    }
  }

  predicate Distinct(dest: seq<DestLine>) {
    forall i, j :: 0 <= i < j < |dest| ==> dest[i].name != dest[j].name
  }

  /** Missing, or not a directory and older than its source. */
  predicate Wanted(src: map<string, Item>, dest: seq<DestLine>, name: string) {
    && name in src
    && forall i :: 0 <= i < |dest| && dest[i].name == name ==> src[name].kind != "d" && dest[i].time < src[name].time
  }

  function JobFor(src: map<string, Item>, name: string): Job
    requires name in src
  {
    Job(src[name].srcname, name, src[name].kind)
  }

  /** Exactly the wanted names, each once, with the data of its source line. */
  ghost predicate Planned(src: map<string, Item>, dest: seq<DestLine>, out: seq<Job>) {
    && (forall i :: 0 <= i < |out| ==> Wanted(src, dest, out[i].name) && out[i] == JobFor(src, out[i].name))
    && (forall i, j :: 0 <= i < j < |out| ==> out[i].name != out[j].name)
    && (forall name :: Wanted(src, dest, name) ==> JobFor(src, name) in out)
  }

  // ---- String order, for the final pass ----

  predicate Le(a: string, b: string) {
    a == [] || (b != [] && (a[0] < b[0] || (a[0] == b[0] && Le(a[1..], b[1..]))))
  }

  /** Alphabetic order: a prefix comes first, otherwise the first difference decides. */
  lemma {:induction false} LeExactly(a: string, b: string)
    ensures Le(a, b) <==> a <= b || exists i :: 0 <= i < |a| && i < |b| && a[..i] == b[..i] && a[i] < b[i]
  {
    if a != [] && b != [] {
      if a[0] == b[0] {
        LeExactly(a[1..], b[1..]);
        LeTail(a, b);
      } else if a[0] < b[0] {
        assert a[..0] == b[..0];
      } else {
        forall i | 0 <= i < |a| && i < |b| && a[..i] == b[..i] ensures i == 0 {
          if i > 0 { SameStart(a, b, i); }
        }
      }
    }
  }

  lemma {:induction false} SameStart(a: string, b: string, i: nat)
    requires 0 < i <= |a| && i <= |b| && a[..i] == b[..i]
    ensures a[0] == b[0]
  {
    assert a[..i][0] == a[0] && b[..i][0] == b[0];
  }

  lemma {:induction false} LeTail(a: string, b: string)
    requires a != [] && b != [] && a[0] == b[0]
    ensures a <= b <==> a[1..] <= b[1..]
    ensures (exists i :: 0 <= i < |a| && i < |b| && a[..i] == b[..i] && a[i] < b[i]) <==>
            (exists i :: 0 <= i < |a[1..]| && i < |b[1..]| && a[1..][..i] == b[1..][..i] && a[1..][i] < b[1..][i])
  {
    assert a == [a[0]] + a[1..] && b == [b[0]] + b[1..];
    if i :| 0 <= i < |a| && i < |b| && a[..i] == b[..i] && a[i] < b[i] {
      assert i > 0;
      assert a[1..][..i - 1] == a[..i][1..] && b[1..][..i - 1] == b[..i][1..];
      assert a[1..][i - 1] == a[i] && b[1..][i - 1] == b[i];
    }
    if i :| 0 <= i < |a[1..]| && i < |b[1..]| && a[1..][..i] == b[1..][..i] && a[1..][i] < b[1..][i] {
      assert a[..i + 1] == [a[0]] + a[1..][..i] && b[..i + 1] == [b[0]] + b[1..][..i];
      assert a[i + 1] == a[1..][i] && b[i + 1] == b[1..][i];
    }
  }

  lemma {:induction false} LeTotal(a: string, b: string)
    ensures Le(a, b) || Le(b, a)
  {
    if a != [] && b != [] { LeTotal(a[1..], b[1..]); }
  }

  lemma {:induction false} LeTransitive(a: string, b: string, c: string)
    requires Le(a, b) && Le(b, c)
    ensures Le(a, c)
  {
    if a != [] && b != [] && c != [] && a[0] == b[0] == c[0] { LeTransitive(a[1..], b[1..], c[1..]); }
  }

  lemma {:induction false} LeastExists(names: set<string>) returns (m: string)
    requires names != {}
    ensures m in names && forall n :: n in names ==> Le(m, n)
    decreases names
  {
    m :| m in names;
    LeTotal(m, m);
    var x, rest := m, names - {m};
    if rest != {} {
      var y := LeastExists(rest);
      LeTotal(x, y);
      m := if Le(x, y) then x else y;
      forall n | n in names ensures Le(m, n) {
        if n != x && m == x { LeTransitive(x, y, n); }
      }
    } else {
      assert names == {x};
    }
  }

  predicate Sorted(jobs: seq<Job>) {
    forall i, j :: 0 <= i < j < |jobs| ==> Le(jobs[i].name, jobs[j].name) && jobs[i].name != jobs[j].name
  }

  // ---- The program ----

  class Planner {
    var src: map<string, Item>
    var destContent: bool
    var out: seq<Job>

    constructor ()
      ensures src == map[] && !destContent && out == []
    {
      src, destContent, out := map[], false, [];
    }

    /** The rule for a source line. */
    method OnSource(l: SrcLine)
      requires TarName(l.path).Some?
      modifies this`src
      ensures src == old(src)[TarName(l.path).value := Item(l.path, l.time, l.kind, false)]
    {
      var name := TarName(l.path).value;
      src := src[name := Item(l.path, l.time, l.kind, false)];
    }

    /** The rule for a destination line: a known directory is done, a known older file is printed and
        done, any other known file is done. */
    method OnDest(l: DestLine)
      modifies this
      ensures destContent
      ensures src == if l.name in old(src) then old(src)[l.name := old(src)[l.name].(done := true)] else old(src)
      ensures out == old(out) + if l.name in old(src) && old(src)[l.name].kind != "d" && l.time < old(src)[l.name].time
                                then [JobFor(old(src), l.name)] else []
    {
      destContent := true;
      if l.name in src {
        if src[l.name].kind == "d" {
          src := src[l.name := src[l.name].(done := true)];
        } else {
          if l.time < src[l.name].time {
            out := out + [JobFor(src, l.name)];
          }
          src := src[l.name := src[l.name].(done := true)];
        }
      }
    }

    /** What the final pass still has to print. */
    predicate Left(name: string)
      reads this`src, this`destContent
    {
      name in src && (!destContent || !src[name].done)
    }

    /** The final pass, in string order: everything when there was no destination line, else whatever
        is not done. */
    method OnEnd() returns (ghost rest: seq<Job>)
      modifies this`out
      ensures out == old(out) + rest && Sorted(rest)
      ensures forall i :: 0 <= i < |rest| ==> Left(rest[i].name) && rest[i] == JobFor(src, rest[i].name)
      ensures forall n :: Left(n) ==> JobFor(src, n) in rest
    {
      var todo := src.Keys;
      rest := [];
      while todo != {}
        invariant todo <= src.Keys && out == old(out) + rest && Sorted(rest)
        invariant forall i :: 0 <= i < |rest| ==> Left(rest[i].name) && rest[i] == JobFor(src, rest[i].name)
        invariant forall i, n :: 0 <= i < |rest| && n in todo ==> Le(rest[i].name, n) && rest[i].name != n
        invariant forall n :: Left(n) && n !in todo ==> JobFor(src, n) in rest
        decreases todo
      {
        ghost var least := LeastExists(todo);
        var s :| s in todo && forall n :: n in todo ==> Le(s, n);
        todo := todo - {s};
        if !destContent || !src[s].done {
          out := out + [JobFor(src, s)];
          rest := rest + [JobFor(src, s)];
        }
      }
    }
  }

  /** The whole program on two listings whose source paths all map and whose destination names are
      distinct. */
  method Plan(srcList: seq<SrcLine>, destList: seq<DestLine>) returns (out: seq<Job>)
    requires forall i :: 0 <= i < |srcList| ==> TarName(srcList[i].path).Some?
    requires Distinct(destList)
    ensures Planned(Sources(srcList), destList, out)
    ensures forall i :: 0 <= i < |out| ==> FromLine(srcList, out[i])
    ensures forall name :: DueByLists(srcList, destList, name) <==> Ordered(out, name)
    ensures exists k :: 0 <= k <= |out| && Arranged(destList, out, k)
  {
    var p := new Planner();
    for i := 0 to |srcList|
      invariant fresh(p) && p.src == Sources(srcList[..i]) && !p.destContent && p.out == []
    {
      assert srcList[..i + 1][..i] == srcList[..i];
      p.OnSource(srcList[i]);
    }
    assert srcList[..|srcList|] == srcList;
    ghost var src := p.src;
    SourcesUndone(srcList);
    for i := 0 to |destList|
      invariant fresh(p) && p.destContent == (i > 0)
      invariant Marked(src, destList[..i], p.src) && Late(src, destList[..i], p.out)
      invariant AsListed(destList[..i], p.out)
    {
      assert destList[..i + 1] == destList[..i] + [destList[i]];
      MarkNext(src, destList[..i], destList[i], p.src);
      LateNext(src, destList[..i], destList[i], p.src, p.out);
      AsListedNext(src, destList[..i], destList[i], p.out);
      p.OnDest(destList[i]);
    }
    assert destList[..|destList|] == destList;
    ghost var printed := p.out;
    ghost var rest := p.OnEnd();
    out := p.out;
    AllPlanned(src, destList, p, printed, rest);
    PlanFromLists(srcList, destList, out);
    PlanArranged(src, destList, p, printed, rest);
  }

  /** The job has, in this order, the path of the last source line for its name, that name, and that line's
      file type. */
  ghost predicate FromLine(lines: seq<SrcLine>, job: Job)
    requires forall j :: 0 <= j < |lines| ==> TarName(lines[j].path).Some?
  {
    exists j :: 0 <= j < |lines| && LastLine(lines, job.name, j)
                && job.srcname == lines[j].path && job.kind == lines[j].kind
  }

  /** Which names are due, read off the two listings: those with a source line whose last one is newer than the
      destination's file, unless it is a directory, or for which the destination has nothing. */
  ghost predicate DueByLists(lines: seq<SrcLine>, dest: seq<DestLine>, name: string)
    requires forall j :: 0 <= j < |lines| ==> TarName(lines[j].path).Some?
  {
    exists j :: 0 <= j < |lines| && LastLine(lines, name, j)
                && forall i :: 0 <= i < |dest| && dest[i].name == name ==>
                     lines[j].kind != "d" && dest[i].time < lines[j].time
  }

  lemma {:induction false} PlanFromLists(lines: seq<SrcLine>, dest: seq<DestLine>, out: seq<Job>)
    requires forall j :: 0 <= j < |lines| ==> TarName(lines[j].path).Some?
    requires Planned(Sources(lines), dest, out)
    ensures forall i :: 0 <= i < |out| ==> FromLine(lines, out[i])
    ensures forall name :: DueByLists(lines, dest, name) <==> Ordered(out, name)
  {
    hide LastLine, Sources;
    forall i | 0 <= i < |out| ensures FromLine(lines, out[i]) {
      var j := SourcesMeaning(lines, out[i].name);
    }
    forall name ensures DueByLists(lines, dest, name) <==> Ordered(out, name) {
      var j := SourcesMeaning(lines, name);
      OrderedExactly(Sources(lines), dest, out, name);
      OneLastLine(lines, name, j);
    }
  }

  lemma {:induction false} OneLastLine(lines: seq<SrcLine>, name: string, j: int)
    requires forall i :: 0 <= i < |lines| ==> TarName(lines[i].path).Some?
    requires LastLine(lines, name, j)
    ensures forall i :: LastLine(lines, name, i) ==> i == j
  {
    hide TarName;
  }

  lemma {:induction false} SourcesUndone(lines: seq<SrcLine>)
    requires forall i :: 0 <= i < |lines| ==> TarName(lines[i].path).Some?
    ensures forall n :: n in Sources(lines) ==> !Sources(lines)[n].done
  {
    if lines != [] { SourcesUndone(lines[..|lines| - 1]); }
  }

  predicate Mentioned(dest: seq<DestLine>, name: string) {
    exists i :: 0 <= i < |dest| && dest[i].name == name
  }

  /** After some destination lines exactly the names mentioned are done. */
  ghost predicate Marked(src: map<string, Item>, dest: seq<DestLine>, now: map<string, Item>) {
    && now.Keys == src.Keys
    && forall n :: n in src ==> now[n] == src[n].(done := Mentioned(dest, n))
  }

  /** After some destination lines exactly the outdated files among them are printed. */
  ghost predicate Late(src: map<string, Item>, dest: seq<DestLine>, out: seq<Job>) {
    && (forall i :: 0 <= i < |out| ==> out[i].name in src && Mentioned(dest, out[i].name)
                                        && Wanted(src, dest, out[i].name) && out[i] == JobFor(src, out[i].name))
    && (forall i, j :: 0 <= i < j < |out| ==> out[i].name != out[j].name)
    && (forall n :: Wanted(src, dest, n) && Mentioned(dest, n) ==> JobFor(src, n) in out)
  }

  lemma {:induction false} MentionedNext(dest: seq<DestLine>, l: DestLine, name: string)
    ensures Mentioned(dest + [l], name) <==> Mentioned(dest, name) || l.name == name
  {
    var all := dest + [l];
    assert all[|dest|] == l;
    assert forall i :: 0 <= i < |dest| ==> all[i] == dest[i];
  }

  lemma {:induction false} MarkNext(src: map<string, Item>, dest: seq<DestLine>, l: DestLine, now: map<string, Item>)
    requires Marked(src, dest, now)
    ensures Marked(src, dest + [l], if l.name in now then now[l.name := now[l.name].(done := true)] else now)
  {
    forall n ensures Mentioned(dest + [l], n) <==> Mentioned(dest, n) || l.name == n { MentionedNext(dest, l, n); }
  }

  lemma {:induction false} WantedNext(src: map<string, Item>, dest: seq<DestLine>, l: DestLine, name: string)
    ensures Wanted(src, dest + [l], name) <==>
            Wanted(src, dest, name) && (l.name == name ==> src[name].kind != "d" && l.time < src[name].time)
  {
    var all := dest + [l];
    assert all[|dest|] == l;
    assert forall i :: 0 <= i < |dest| ==> all[i] == dest[i];
  }

  lemma {:induction false} LateNext(src: map<string, Item>, dest: seq<DestLine>, l: DestLine,
                                       now: map<string, Item>, out: seq<Job>)
    requires Marked(src, dest, now) && Late(src, dest, out) && !Mentioned(dest, l.name)
    ensures Late(src, dest + [l], out + if l.name in now && now[l.name].kind != "d" && l.time < now[l.name].time
                                        then [JobFor(now, l.name)] else [])
  {
    forall n
      ensures Mentioned(dest + [l], n) <==> Mentioned(dest, n) || l.name == n
      ensures Wanted(src, dest + [l], n) <==>
              Wanted(src, dest, n) && (l.name == n ==> src[n].kind != "d" && l.time < src[n].time)
    {
      MentionedNext(dest, l, n);
      WantedNext(src, dest, l, n);
    }
  }

  /** The first line of the destination for a name, or -1. */
  function LineOf(dest: seq<DestLine>, name: string): (i: int)
    ensures -1 <= i < |dest| && (i >= 0 <==> Mentioned(dest, name)) && (i >= 0 ==> dest[i].name == name)
  {
    if dest == [] then -1
    else
      var n := |dest| - 1;
      assert dest == dest[..n] + [dest[n]];
      MentionedNext(dest[..n], dest[n], name);
      var i := LineOf(dest[..n], name);
      if i >= 0 then i else if dest[n].name == name then n else -1
  }

  /** The jobs come in the order of their destination lines. */
  predicate AsListed(dest: seq<DestLine>, out: seq<Job>) {
    forall i, j :: 0 <= i < j < |out| ==> LineOf(dest, out[i].name) < LineOf(dest, out[j].name)
  }

  lemma {:induction false} LineOfNext(dest: seq<DestLine>, l: DestLine, name: string)
    ensures LineOf(dest + [l], name) ==
            if Mentioned(dest, name) then LineOf(dest, name) else if l.name == name then |dest| else -1
  {
    assert (dest + [l])[..|dest|] == dest;
  }

  lemma {:induction false} AsListedNext(src: map<string, Item>, dest: seq<DestLine>, l: DestLine, out: seq<Job>)
    requires Late(src, dest, out) && AsListed(dest, out) && !Mentioned(dest, l.name)
    ensures AsListed(dest + [l], out)
    ensures forall job: Job :: job.name == l.name ==> AsListed(dest + [l], out + [job])
  {
    hide LineOf, Wanted;
    forall i | 0 <= i < |out| ensures LineOf(dest + [l], out[i].name) == LineOf(dest, out[i].name) < |dest| {
      LineOfNext(dest, l, out[i].name);
    }
    LineOfNext(dest, l, l.name);
  }

  /** First the outdated files, as the destination lists them, then the missing names in string order. */
  ghost predicate Arranged(dest: seq<DestLine>, out: seq<Job>, k: int)
    requires 0 <= k <= |out|
  {
    && (forall i :: 0 <= i < |out| ==> (i < k <==> Mentioned(dest, out[i].name)))
    && AsListed(dest, out[..k]) && Sorted(out[k..])
  }

  lemma {:induction false} PlanArranged(src: map<string, Item>, dest: seq<DestLine>, p: Planner,
                                            printed: seq<Job>, rest: seq<Job>)
    requires Marked(src, dest, p.src) && Late(src, dest, printed) && p.destContent == (|dest| > 0)
    requires (forall n :: n in src ==> !src[n].done) && AsListed(dest, printed)
    requires p.out == printed + rest && Sorted(rest)
    requires forall i :: 0 <= i < |rest| ==> p.Left(rest[i].name)
    ensures Arranged(dest, p.out, |printed|)
  {
    assert p.out[..|printed|] == printed && p.out[|printed|..] == rest;
    forall n | p.Left(n) ensures !Mentioned(dest, n) { }
    forall i | 0 <= i < |p.out| ensures i < |printed| <==> Mentioned(dest, p.out[i].name) {
      if i >= |printed| { assert p.Left(rest[i - |printed|].name); }
    }
  }

  /** The late ones printed on the way and what the final pass finds left are together the plan. */
  lemma {:induction false} AllPlanned(src: map<string, Item>, dest: seq<DestLine>, p: Planner,
                                         printed: seq<Job>, rest: seq<Job>)
    requires Marked(src, dest, p.src) && Late(src, dest, printed) && p.destContent == (|dest| > 0)
    requires forall n :: n in src ==> !src[n].done
    requires p.out == printed + rest && Sorted(rest)
    requires forall i :: 0 <= i < |rest| ==> p.Left(rest[i].name) && rest[i] == JobFor(p.src, rest[i].name)
    requires forall n :: p.Left(n) ==> JobFor(p.src, n) in rest
    ensures Planned(src, dest, p.out)
  {
    forall n ensures p.Left(n) <==> n in src && !Mentioned(dest, n) { }
    forall n | Wanted(src, dest, n) ensures JobFor(src, n) in p.out {
      if Mentioned(dest, n) {
        assert JobFor(src, n) in printed;
      } else {
        assert JobFor(p.src, n) in rest;
      }
    }
  }

  // ---- Convergence ----

  /** The destination after the jobs were done: each made tarball is there and not older than its source,
      and what was not made is as before. */
  ghost predicate Made(src: map<string, Item>, dest: seq<DestLine>, out: seq<Job>, dest': seq<DestLine>) {
    && (forall i :: 0 <= i < |out| ==> Mentioned(dest', out[i].name))
    && (forall l :: l in dest' && Ordered(out, l.name) ==> l.name in src && l.time >= src[l.name].time)
    && (forall l :: l in dest && !Ordered(out, l.name) ==> l in dest')
  }

  predicate Ordered(out: seq<Job>, name: string) {
    exists i :: 0 <= i < |out| && out[i].name == name
  }

  lemma {:induction false} OrderedExactly(src: map<string, Item>, dest: seq<DestLine>, out: seq<Job>, name: string)
    requires Planned(src, dest, out)
    ensures Ordered(out, name) <==> Wanted(src, dest, name)
  {
    if Wanted(src, dest, name) { assert JobFor(src, name) in out; }
  }

  lemma {:induction false} NothingWanted(src: map<string, Item>, dest: seq<DestLine>, out: seq<Job>,
                                            dest': seq<DestLine>, name: string)
    requires Planned(src, dest, out) && Made(src, dest, out, dest')
    ensures !Wanted(src, dest', name)
  {
    OrderedExactly(src, dest, out, name);
    if Ordered(out, name) {
      assert Mentioned(dest', name);
      var j :| 0 <= j < |dest'| && dest'[j].name == name;
      assert dest'[j] in dest';
    } else if name in src {
      var k :| 0 <= k < |dest| && dest[k].name == name && !(src[name].kind != "d" && dest[k].time < src[name].time);
      assert dest[k] in dest;
      var j :| 0 <= j < |dest'| && dest'[j] == dest[k];
    }
  }

  /** A rerun after all jobs were done has nothing to do. */
  lemma {:induction false} Converges(src: map<string, Item>, dest: seq<DestLine>, out: seq<Job>,
                                        dest': seq<DestLine>, again: seq<Job>)
    requires Planned(src, dest, out) && Made(src, dest, out, dest') && Planned(src, dest', again)
    ensures again == []
  {
    if again != [] {
      NothingWanted(src, dest, out, dest', again[0].name);
      assert false;
    }
  }

  /** With no tarball yet, the plan is every name of the source. */
  lemma {:induction false} FirstRun(src: map<string, Item>, out: seq<Job>, name: string)
    requires Planned(src, [], out)
    ensures name in src <==> exists i :: 0 <= i < |out| && out[i].name == name
  {
    if name in src {
      assert JobFor(src, name) in out;
    }
  }
}
