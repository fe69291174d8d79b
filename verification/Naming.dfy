/** Names: from a path in the debuginfo tree to its tarball, to the URL asked for, to the file read. */
module Naming {
  import opened Chains
  import Fetches
  import Wire
  import Words

  /** The planner's four substitutions, tried in this order. */
  function TarName(path: string): (r: Option<string>)
    ensures r.Some? ==> |r.value| >= 4
  {
    if "/usr/lib/debug" <= path then Some("/lib" + path[14..])
    else if "/usr/src/debug" <= path then Some("/src" + path[14..])
    else if "/usr/share/debug/src" <= path then Some("/src" + path[20..])
    else if "/usr/share/debug" <= path then Some("/lib" + path[16..])
    else None
  }

  /** Length of the match of `^/usr/(lib|share|src)/debug(/src)?`, 0 when there is none. */
  function Stripped(path: string): (n: nat)
    ensures n <= |path|
  {
    var n := if "/usr/lib/debug" <= path || "/usr/src/debug" <= path then 14
             else if "/usr/share/debug" <= path then 16 else 0;
    if n > 0 && "/src" <= path[n..] then n + 4 else n
  }

  /** The member name inside the tarball. */
  function TarContent(path: string): string {
    if Stripped(path) == 0 then path else "." + path[Stripped(path)..]
  }

  /** The directory tar changes to, below SRC; a path that does not match stays whole. */
  function SrcDir(path: string): string {
    if Stripped(path) == 0 then path else path[..Stripped(path)]
  }

  datatype Root = LibDebug | SrcDebug | ShareDebug | ShareDebugSrc

  function RootPath(r: Root): string {
    match r
    case LibDebug => "/usr/lib/debug"
    case SrcDebug => "/usr/src/debug"
    case ShareDebug => "/usr/share/debug"
    case ShareDebugSrc => "/usr/share/debug/src"
  }

  /** The prefix under which the mount for this root asks the daemon. */
  function RootPrefix(r: Root): string {
    match r
    case LibDebug => "lib"
    case SrcDebug => "src"
    case ShareDebug => "lib"
    case ShareDebugSrc => "src"
  }

  /** Two strings that disagree at one index are not a prefix of each other. */
  lemma {:induction false} NotPrefix(a: string, b: string, i: nat)
    requires i < |a| && i < |b| && a[i] != b[i]
    ensures !(a <= b)
  {
  }

  lemma {:induction false} RootsApart(r: Root, p: string)
    ensures var s := RootPath(r) + p;
            && ("/usr/lib/debug" <= s <==> r.LibDebug?)
            && ("/usr/src/debug" <= s <==> r.SrcDebug?)
            && ("/usr/share/debug" <= s <==> r.ShareDebug? || r.ShareDebugSrc?)
            && ("/usr/share/debug/src" <= s <==> r.ShareDebugSrc? || (r.ShareDebug? && "/src" <= p))
  {
    var s := RootPath(r) + p;
    match r
    case LibDebug =>
      assert s[5] == 'l';
      NotPrefix("/usr/src/debug", s, 5);
      NotPrefix("/usr/share/debug", s, 5);
      NotPrefix("/usr/share/debug/src", s, 5);
    case SrcDebug =>
      assert s[5] == 's' && s[6] == 'r';
      NotPrefix("/usr/lib/debug", s, 5);
      NotPrefix("/usr/share/debug", s, 6);
      NotPrefix("/usr/share/debug/src", s, 6);
    case ShareDebug =>
      assert s[5] == 's' && s[6] == 'h';
      NotPrefix("/usr/lib/debug", s, 5);
      NotPrefix("/usr/src/debug", s, 6);
      assert s[16..] == p;
      assert "/usr/share/debug" + "/src" == "/usr/share/debug/src";
      if "/usr/share/debug/src" <= s {
        assert s[16..20] == "/usr/share/debug/src"[16..20] == "/src";
        assert p[..4] == s[16..20];
      }
      if "/src" <= p { assert s[..20] == "/usr/share/debug" + p[..4]; }
    case ShareDebugSrc =>
      assert s[5] == 's' && s[6] == 'h';
      NotPrefix("/usr/lib/debug", s, 5);
      NotPrefix("/usr/src/debug", s, 6);
      assert "/usr/share/debug/src"[..16] == "/usr/share/debug";
      assert s[..16] == "/usr/share/debug";
  }

  /** The tarball is named after prefix and path, unless the path belongs to the longer share root. */
  lemma {:induction false} NameAgrees(r: Root, p: string)
    ensures TarName(RootPath(r) + p) == Some("/" + RootPrefix(r) + p) <==> !(r.ShareDebug? && "/src" <= p)
  {
    var s := RootPath(r) + p;
    RootsApart(r, p);
    assert s[|RootPath(r)|..] == p;
    assert "/" + "lib" == "/lib" && "/" + "src" == "/src";
    if r.ShareDebug? && "/src" <= p {
      assert |TarName(s).value| == |p|;
    }
  }

  /** The member inside the tarball is "." and the path, unless one more "/src" is stripped. */
  lemma {:induction false} ContentAgrees(r: Root, p: string)
    ensures TarContent(RootPath(r) + p) == "." + p <==> r.ShareDebugSrc? || !("/src" <= p)
  {
    var s := RootPath(r) + p;
    RootsApart(r, p);
    assert s[|RootPath(r)|..] == p;
    if r.ShareDebugSrc? {
      assert s[16..][..4] == "/usr/share/debug/src"[16..20] == "/src";
      assert Stripped(s) == 20;
    } else {
      assert Stripped(s) == |RootPath(r)| + if "/src" <= p then 4 else 0;
      if "/src" <= p { assert |TarContent(s)| == |p| - 3; }
    }
  }

  /** tar finds the member: directory and member name together are the path again. */
  lemma {:induction false} ContentIsThere(path: string)
    ensures Stripped(path) > 0 ==>
              TarContent(path) != "" && TarContent(path)[0] == '.' && SrcDir(path) + TarContent(path)[1..] == path
    ensures Stripped(path) == 0 ==> TarContent(path) == path == SrcDir(path)
  {
    hide Stripped;
    var n := Stripped(path);
    assert ("." + path[n..])[1..] == path[n..];
  }

  /** End to end, for a path below one of the four roots: the daemon asks for the tarball the planner
      made, and its member lands where the mount reads ("." and the path) - exactly when the path does
      not start with "/src", or the root is the share source root. */
  lemma {:induction false} EndToEnd(r: Root, p: string, bases: seq<string>, counter: nat)
    requires |bases| > 0
    ensures var s := RootPath(r) + p;
            (TarName(s).Some?
             && Fetches.BuildUrl(bases, counter, RootPrefix(r), p)
                == bases[counter % |bases|] + TarName(s).value[1..] + ".tar"
             && TarContent(s) == "." + p)
            <==> r.ShareDebugSrc? || !("/src" <= p)
  {
    hide TarName, TarContent, RootPath, RootPrefix;
    NameAgrees(r, p);
    ContentAgrees(r, p);
    UrlOfName(bases, counter, RootPrefix(r), p);
  }

  lemma {:induction false} UrlOfName(bases: seq<string>, counter: nat, prefix: string, p: string)
    requires |bases| > 0
    ensures Fetches.BuildUrl(bases, counter, prefix, p)
            == bases[counter % |bases|] + ("/" + prefix + p)[1..] + ".tar"
  {
    assert ("/" + prefix + p)[1..] == prefix + p;
    var b := bases[counter % |bases|];
    assert b + (prefix + p) + ".tar" == b + prefix + p + ".tar";
  }

  /** From the client to the tarball: the request for path p, printed by the client and parsed by the
      server, makes the daemon ask for the planner's tarball of the source path, which unpacks to where
      the mount reads - under the same condition. */
  lemma {:induction false} RequestReachesTarball(r: Root, p: string, timestamp: int, bases: seq<string>, counter: nat)
    requires |bases| > 0 && -Words.I63 <= timestamp < Words.I63
    requires Wire.NUL !in p && Wire.Passes(RootPrefix(r), p)
    requires |Wire.Message(timestamp, RootPrefix(r), p)| + 1 <= 4104
    ensures var req, s := Wire.Parse(Wire.Received(Wire.Message(timestamp, RootPrefix(r), p))), RootPath(r) + p;
            && req == Wire.Request(timestamp, RootPrefix(r), p)
            && ((TarName(s).Some?
                 && Fetches.BuildUrl(bases, counter, req.prefix, req.path)
                    == bases[counter % |bases|] + TarName(s).value[1..] + ".tar"
                 && TarContent(s) == "." + req.path)
                <==> r.ShareDebugSrc? || !("/src" <= p))
  {
    hide TarName, TarContent, RootPath, Wire.Parse, Wire.Received, Wire.Message, Wire.Passes, Fetches.BuildUrl;
    Wire.RoundTrip(timestamp, RootPrefix(r), p);
    EndToEnd(r, p, bases, counter);
  }

  /** The exception exists: a source file below /usr/lib/debug/src is packed under another name. */
  lemma SrcBelowLibExample()
    ensures TarName("/usr/lib/debug/src/x") == Some("/lib/src/x") && TarContent("/usr/lib/debug/src/x") == "./x"
  {
    var s := RootPath(LibDebug) + "/src/x";
    assert s == "/usr/lib/debug/src/x";
    RootsApart(LibDebug, "/src/x");
    assert s[14..] == "/src/x" && "/src" <= "/src/x";
    assert s[18..] == "/x";
    assert "/lib" + "/src/x" == "/lib/src/x" && "." + "/x" == "./x";
  }

  /** One file below each root: the name of its tarball, and of the member inside. */
  lemma RootExamples()
    ensures TarName("/usr/lib/debug/x") == Some("/lib/x") && TarContent("/usr/lib/debug/x") == "./x"
    ensures TarName("/usr/src/debug/x") == Some("/src/x") && TarContent("/usr/src/debug/x") == "./x"
    ensures TarName("/usr/share/debug/x") == Some("/lib/x") && TarContent("/usr/share/debug/x") == "./x"
    ensures TarName("/usr/share/debug/src/x") == Some("/src/x") && TarContent("/usr/share/debug/src/x") == "./x"
  {
    hide TarName, TarContent;
    RootExample(LibDebug, "/usr/lib/debug/x", "/lib/x");
    RootExample(SrcDebug, "/usr/src/debug/x", "/src/x");
    RootExample(ShareDebug, "/usr/share/debug/x", "/lib/x");
    RootExample(ShareDebugSrc, "/usr/share/debug/src/x", "/src/x");
  }

  lemma {:induction false} RootExample(r: Root, path: string, name: string)
    requires path == RootPath(r) + "/x" && name == "/" + RootPrefix(r) + "/x"
    ensures TarName(path) == Some(name) && TarContent(path) == "./x"
  {
    hide TarName, TarContent, RootPath, RootPrefix;
    assert "/x"[1] == 'x' && "/src"[1] == 's';
    NotPrefix("/src", "/x", 1);
    NameAgrees(r, "/x");
    ContentAgrees(r, "/x");
    assert "." + "/x" == "./x";
  }
}
