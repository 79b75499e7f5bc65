/** Slash-separated paths: Go's `path.Clean`, `path.Join` and `path.Dir`, and the run
    directory of a node. */
module Paths {
  import opened ByteStrings

  /** The pieces between slashes, never none. */
  function Pieces(p: string): (r: seq<string>)
    ensures |r| > 0
    ensures forall x :: x in r ==> '/' !in x
    decreases |p|
  {
    var i := IndexOf(p, '/');
    if i == |p| then [p] else [p[..i]] + Pieces(p[i + 1..])
  }

  /** One piece applied to the path so far. */
  function Push(rooted: bool, path: seq<string>, piece: string): seq<string> {
    if piece == "" || piece == "." then path
    else if piece != ".." then path + [piece]
    else if path != [] && path[|path| - 1] != ".." then path[..|path| - 1]
    else if rooted then path
    else path + [".."]
  }

  function Walk(rooted: bool, path: seq<string>, pieces: seq<string>): seq<string>
    decreases |pieces|
  {
    if pieces == [] then path else Walk(rooted, Push(rooted, path, pieces[0]), pieces[1..])
  }

  function Text(rooted: bool, path: seq<string>): string {
    if rooted then "/" + Join(path, "/")
    else if path == [] then "." else Join(path, "/")
  }

  predicate Rooted(p: string) { p != "" && p[0] == '/' }

  /** `path.Clean`. */
  function Clean(p: string): string {
    Text(Rooted(p), Walk(Rooted(p), [], Pieces(p)))
  }

  function NonEmpty(parts: seq<string>): seq<string> {
    if parts == [] then []
    else (if parts[0] == "" then [] else [parts[0]]) + NonEmpty(parts[1..])
  }

  /** `path.Join`. */
  function PathJoin(parts: seq<string>): string {
    if NonEmpty(parts) == [] then "" else Clean(Join(NonEmpty(parts), "/"))
  }

  /** Position just after the last slash. */
  function AfterSlash(p: string): (i: nat)
    ensures i <= |p|
    ensures i > 0 ==> p[i - 1] == '/'
    ensures '/' !in p[i..]
  {
    if p == "" || p[|p| - 1] == '/' then |p| else AfterSlash(p[..|p| - 1])
  }

  /** `path.Dir`. */
  function Dir(p: string): string { Clean(p[..AfterSlash(p)]) }

  /** `runDir`: the directory of a node under the home directory. */
  function RunDir(home: string, name: string): string {
    PathJoin([home, ".cache/klab/run", name])
  }

  /** A name that is one path component. */
  predicate PlainName(name: string) {
    name != "" && name != "." && name != ".." && '/' !in name
  }

  // ----- pieces ----------------------------------------------------------

  lemma PiecesFirst(p: string, q: string)
    requires '/' !in p
    ensures Pieces(p + ("/" + q)) == [p] + Pieces(q)
  {
    var s := p + ("/" + q);
    assert s == p + ['/'] + q;
    IndexOfPrefix(p, '/', q);
    assert s[..|p|] == p && s[|p| + 1..] == q;
  }

  /** Paths joined by a slash have the pieces of both. */
  lemma {:induction false} PiecesConcat(p: string, q: string)
    ensures Pieces(p + ("/" + q)) == Pieces(p) + Pieces(q)
    decreases |p|
  {
    hide Pieces;
    var i := IndexOf(p, '/');
    if i == |p| {
      NoSlash(p);
      PiecesFirst(p, q);
    } else {
      var a, b := p[..i], p[i + 1..];
      assert p == a + ("/" + b);
      assert p + ("/" + q) == a + ("/" + (b + ("/" + q)));
      PiecesFirst(a, b);
      PiecesFirst(a, b + ("/" + q));
      PiecesConcat(b, q);
    }
  }

  lemma PiecesSnoc(p: string, name: string)
    requires '/' !in name
    ensures Pieces(p + ("/" + name)) == Pieces(p) + [name]
  {
    PiecesConcat(p, name);
    NoSlash(name);
  }

  lemma NoSlash(p: string)
    requires '/' !in p
    ensures Pieces(p) == [p]
  {
    var i := IndexOf(p, '/');
  }

  lemma {:induction false} WalkSnoc(rooted: bool, path: seq<string>, pieces: seq<string>, x: string)
    ensures Walk(rooted, path, pieces + [x]) == Push(rooted, Walk(rooted, path, pieces), x)
    decreases |pieces|
  {
    hide Push;
    if pieces == [] {
      assert pieces + [x] == [x];
      assert Walk(rooted, path, [x]) == Walk(rooted, Push(rooted, path, x), [x][1..]);
    } else {
      assert (pieces + [x])[1..] == pieces[1..] + [x];
      WalkSnoc(rooted, Push(rooted, path, pieces[0]), pieces[1..], x);
    }
  }

  // ----- cleaning is idempotent ------------------------------------------

  predicate NormalAt(rooted: bool, path: seq<string>, i: int)
    requires 0 <= i < |path|
  {
    && path[i] != "" && path[i] != "." && '/' !in path[i]
    && (path[i] == ".." ==> !rooted && forall j :: 0 <= j < i ==> path[j] == "..")
  }

  predicate Normal(rooted: bool, path: seq<string>) {
    forall i :: 0 <= i < |path| ==> NormalAt(rooted, path, i)
  }

  lemma PushNormal(rooted: bool, path: seq<string>, piece: string)
    requires Normal(rooted, path) && '/' !in piece
    ensures Normal(rooted, Push(rooted, path, piece))
  {
    var out := Push(rooted, path, piece);
    forall i | 0 <= i < |out| ensures NormalAt(rooted, out, i) {
      if i < |path| {
        assert NormalAt(rooted, path, i);
      } else if piece == ".." && path != [] {
        assert NormalAt(rooted, path, |path| - 1);
      }
    }
  }

  lemma {:induction false} WalkNormal(rooted: bool, path: seq<string>, pieces: seq<string>)
    requires Normal(rooted, path) && forall x :: x in pieces ==> '/' !in x
    ensures Normal(rooted, Walk(rooted, path, pieces))
    decreases |pieces|
  {
    hide Normal, Push;
    if pieces != [] {
      assert pieces[0] in pieces;
      PushNormal(rooted, path, pieces[0]);
      WalkNormal(rooted, Push(rooted, path, pieces[0]), pieces[1..]);
    }
  }

  /** A normal path walks to itself. */
  lemma {:induction false} WalkOfNormal(rooted: bool, path: seq<string>, rest: seq<string>)
    requires Normal(rooted, path + rest)
    ensures Walk(rooted, path, rest) == path + rest
    decreases |rest|
  {
    if rest == [] {
      assert path + rest == path;
    } else {
      var all := path + rest;
      assert NormalAt(rooted, all, |path|) && all[|path|] == rest[0];
      if path != [] { assert all[|path| - 1] == path[|path| - 1]; }
      assert Push(rooted, path, rest[0]) == path + [rest[0]];
      assert path + [rest[0]] + rest[1..] == all;
      WalkOfNormal(rooted, path + [rest[0]], rest[1..]);
    }
  }

  lemma {:induction false} PiecesOfJoin(path: seq<string>)
    requires path != [] && forall x :: x in path ==> '/' !in x
    ensures Pieces(Join(path, "/")) == path
    decreases |path|
  {
    if |path| == 1 {
      assert path[0] in path;
      NoSlash(path[0]);
    } else {
      var front, last := path[..|path| - 1], path[|path| - 1];
      assert last in path && front + [last] == path;
      PiecesOfJoin(front);
      JoinSnoc(front, last);
      PiecesSnoc(Join(front, "/"), last);
    }
  }

  lemma {:induction false} JoinSnoc(path: seq<string>, x: string)
    requires path != []
    ensures Join(path + [x], "/") == Join(path, "/") + ("/" + x)
    decreases |path|
  {
    if |path| == 1 {
      assert path + [x] == [path[0], x];
      assert Join([path[0], x][1..], "/") == x;
    } else {
      assert (path + [x])[1..] == path[1..] + [x];
      JoinSnoc(path[1..], x);
    }
  }

  lemma RootedText(rooted: bool, path: seq<string>)
    requires Normal(rooted, path)
    ensures Rooted(Text(rooted, path)) == rooted
  {
    if !rooted && path != [] {
      assert NormalAt(rooted, path, 0);
      assert path[0][0] in path[0];
      assert Join(path, "/")[0] == path[0][0];
    }
  }

  /** Reading a clean path gives its components back. */
  lemma WalkOfText(rooted: bool, path: seq<string>)
    requires Normal(rooted, path)
    ensures Walk(rooted, [], Pieces(Text(rooted, path))) == path
  {
    forall x | x in path ensures '/' !in x {
      var i :| 0 <= i < |path| && path[i] == x;
      assert NormalAt(rooted, path, i);
    }
    assert [] + path == path;
    WalkOfNormal(rooted, [], path);
    if path == [] {
      NoSlash(".");
      NoSlash("");
      assert "/" + Join(path, "/") == "/" && "/"[..0] == "" && "/"[1..] == "";
      assert Pieces("/") == [""] + [""];
      WalkSnoc(rooted, [], [""], "");
      WalkSnoc(rooted, [], [], "");
      WalkSnoc(rooted, [], [], ".");
      assert [] + [""] == [""] && [] + ["."] == ["."];
    } else {
      PiecesOfJoin(path);
      var s := "/" + Join(path, "/");
      assert s[..0] == "" && s[1..] == Join(path, "/");
      assert Pieces(s) == [""] + path;
      assert ([""] + path)[1..] == path;
    }
  }

  lemma PiecesAreNormal(p: string)
    ensures Normal(Rooted(p), Walk(Rooted(p), [], Pieces(p)))
  {
    WalkNormal(Rooted(p), [], Pieces(p));
  }

  /** A slash at the end and a second cleaning change nothing. */
  lemma CleanAgain(p: string)
    ensures Clean(Clean(p)) == Clean(p)
    ensures Clean(Clean(p) + "/") == Clean(p)
  {
    hide Walk, Normal, Text, Pieces, Push;
    var rooted, c := Rooted(p), Clean(p);
    var path := Walk(rooted, [], Pieces(p));
    PiecesAreNormal(p);
    RootedText(rooted, path);
    WalkOfText(rooted, path);
    assert c != "" by { TextNotEmpty(rooted, path); }
    assert c + "/" == c + ("/" + "");
    PiecesSnoc(c, "");
    WalkSnoc(rooted, [], Pieces(c), "");
    PushNothing(rooted, path);
  }

  lemma PushNothing(rooted: bool, path: seq<string>)
    ensures Push(rooted, path, "") == path
  {
  }

  lemma TextNotEmpty(rooted: bool, path: seq<string>)
    requires Normal(rooted, path)
    ensures Text(rooted, path) != ""
  {
    if path != [] { assert NormalAt(rooted, path, 0); }
  }

  // ----- run directories -------------------------------------------------

  /** The parent of a node's control directory is its run directory, so booting and
      every later command use the same one. */
  lemma ControlParent(home: string, name: string)
    ensures Dir(RunDir(home, name) + "/rw") == RunDir(home, name)
  {
    hide Clean, Join, NonEmpty;
    var run := RunDir(home, name);
    var parts := NonEmpty([home, ".cache/klab/run", name]);
    assert parts != [] by { SomePart(home, ".cache/klab/run", name); }
    CleanAgain(Join(parts, "/"));
    CutLast(run, "rw");
    assert run + "/rw" == run + "/" + "rw";
  }

  lemma SomePart(a: string, b: string, c: string)
    requires b != ""
    ensures NonEmpty([a, b, c]) == (if a == "" then [] else [a]) + ([b] + (if c == "" then [] else [c]))
  {
    assert [a, b, c][1..] == [b, c] && [b, c][1..] == [c] && [c][1..] == [];
    assert NonEmpty([c]) == if c == "" then [] else [c];
    assert NonEmpty([b, c]) == [b] + NonEmpty([c]);
  }

  lemma CutLast(p: string, x: string)
    requires '/' !in x
    ensures (p + "/" + x)[..AfterSlash(p + "/" + x)] == p + "/"
  {
    var s := p + "/" + x;
    var i := AfterSlash(s);
    assert forall k :: i <= k < |s| ==> s[k] == s[i..][k - i];
    assert s[|p|] == '/';
    assert forall k :: |p| < k < |s| ==> s[k] == x[k - |p| - 1];
  }

  /** Everything in a run directory before the node's name. */
  function RunBase(home: string): string {
    if home == "" then ".cache/klab/run" else home + ("/" + ".cache/klab/run")
  }

  function RunLead(home: string): string {
    var rooted := Rooted(RunBase(home));
    var path := Walk(rooted, [], Pieces(RunBase(home)));
    (if rooted then "/" else "") + (if path == [] then "" else Join(path, "/") + "/")
  }

  lemma RunDirPlain(home: string, name: string)
    requires PlainName(name)
    ensures RunDir(home, name) == RunLead(home) + name
  {
    hide Walk, Pieces, Join, Clean;
    var base := RunBase(home);
    var rooted := Rooted(base);
    var path := Walk(rooted, [], Pieces(base));
    RunDirText(home, name);
    PiecesSnoc(base, name);
    WalkSnoc(rooted, [], Pieces(base), name);
    PushPlain(rooted, path, name);
    CleanText(base + ("/" + name), rooted, path + [name]);
    JoinEnd(path, name);
  }

  lemma RunDirText(home: string, name: string)
    requires name != ""
    ensures RunDir(home, name) == Clean(RunBase(home) + ("/" + name))
  {
    hide Clean;
    SomePart(home, ".cache/klab/run", name);
    var k := ".cache/klab/run";
    assert [] + ([k] + [name]) == [k, name] && [home] + ([k] + [name]) == [home, k, name];
    assert [home, k, name][1..] == [k, name] && [k, name][1..] == [name];
    assert Join([k, name], "/") == k + "/" + name;
    assert k + "/" + name == k + ("/" + name);
    if home != "" {
      assert Join([home, k, name], "/") == home + "/" + Join([k, name], "/");
      assert home + "/" + (k + ("/" + name)) == home + ("/" + k) + ("/" + name);
    }
  }

  lemma PushPlain(rooted: bool, path: seq<string>, name: string)
    requires PlainName(name)
    ensures Push(rooted, path, name) == path + [name]
  {
  }

  lemma CleanText(p: string, rooted: bool, path: seq<string>)
    requires Rooted(p) == rooted && Walk(rooted, [], Pieces(p)) == path
    ensures Clean(p) == Text(rooted, path)
  {
  }

  lemma JoinEnd(path: seq<string>, name: string)
    ensures Join(path + [name], "/") == (if path == [] then "" else Join(path, "/") + "/") + name
  {
    if path == [] {
      assert path + [name] == [name];
    } else {
      JoinSnoc(path, name);
      assert Join(path, "/") + ("/" + name) == Join(path, "/") + "/" + name;
    }
  }

  // ----- directories below one another -----------------------------------

  /** What the paths below a directory begin with. */
  function Inside(dir: string): string { if HasSuffix(dir, "/") then dir else dir + "/" }

  /** The path is in the tree that `rm -rf dir` removes. */
  predicate Under(path: string, dir: string) { path == dir || HasPrefix(path, Inside(dir)) }

  /** The run directory's components. */
  function RunPath(home: string, name: string): seq<string> {
    var p := Join(NonEmpty([home, ".cache/klab/run", name]), "/");
    Walk(Rooted(p), [], Pieces(p))
  }

  lemma {:induction false} JoinConcat(a: seq<string>, b: seq<string>)
    requires a != [] && b != []
    ensures Join(a + b, "/") == Join(a, "/") + ("/" + Join(b, "/"))
    decreases |a|
  {
    if |a| == 1 {
      assert a + b == [a[0]] + b && (a + b)[1..] == b;
    } else {
      assert (a + b)[1..] == a[1..] + b;
      JoinConcat(a[1..], b);
    }
  }

  lemma {:induction false} JoinEndsPlain(path: seq<string>)
    requires path != [] && path[|path| - 1] != "" && '/' !in path[|path| - 1]
    ensures Join(path, "/") != "" && !HasSuffix(Join(path, "/"), "/")
    decreases |path|
  {
    if |path| == 1 {
      assert path[0][|path[0]| - 1] in path[0];
    } else {
      JoinEndsPlain(path[1..]);
      var j := Join(path[1..], "/");
      var s := path[0] + "/" + j;
      assert s[|s| - 1] == j[|j| - 1] && s[|s| - 1..] == [s[|s| - 1]];
      assert j[|j| - 1..] == [j[|j| - 1]];
    }
  }

  lemma InsideText(path: seq<string>)
    requires Normal(true, path)
    ensures Inside(Text(true, path)) == if path == [] then "/" else Text(true, path) + "/"
  {
    if path != [] {
      assert NormalAt(true, path, |path| - 1);
      JoinEndsPlain(path);
      var j, t := Join(path, "/"), Text(true, path);
      assert t[|t| - 1..] == j[|j| - 1..];
    }
  }

  /** Of two clean absolute paths one is in the tree of the other if and only if its
      components begin with those of the other. */
  lemma UnderIff(x: seq<string>, y: seq<string>)
    requires Normal(true, x) && Normal(true, y)
    ensures Under(Text(true, y), Text(true, x)) <==> x <= y
  {
    hide Normal, Pieces, Walk;
    var tx, ty := Text(true, x), Text(true, y);
    InsideText(x);
    assert y == [] ==> |ty| == 1;
    if x <= y {
      var z := y[|x|..];
      assert x + z == y;
      if z == [] {
        assert x == y;
      } else if x != [] {
        JoinConcat(x, z);
        assert ty == tx + "/" + Join(z, "/");
        assert ty[..|tx| + 1] == tx + "/";
      }
    }
    if Under(ty, tx) && x != [] {
      if ty == tx {
        WalkOfText(true, x);
        WalkOfText(true, y);
      } else {
        var rest := ty[|tx| + 1..];
        assert ty == tx + ("/" + rest);
        TextPieces(x);
        PiecesConcat(tx, rest);
        TextPieces(y);
        assert [""] + y == ([""] + x) + Pieces(rest);
        assert y == ([""] + y)[1..] && x + Pieces(rest) == (([""] + x) + Pieces(rest))[1..];
      }
    }
  }

  lemma TextPieces(path: seq<string>)
    requires Normal(true, path) && path != []
    ensures Pieces(Text(true, path)) == [""] + path
  {
    forall x | x in path ensures '/' !in x {
      var i :| 0 <= i < |path| && path[i] == x;
      assert NormalAt(true, path, i);
    }
    PiecesOfJoin(path);
    assert "" + ("/" + Join(path, "/")) == "/" + Join(path, "/");
    PiecesConcat("", Join(path, "/"));
    NoSlash("");
  }

  lemma RunDirOfPath(home: string, name: string)
    requires Rooted(home)
    ensures RunDir(home, name) == Text(true, RunPath(home, name)) && Normal(true, RunPath(home, name))
  {
    hide Walk, Normal, Text, Pieces, Join;
    SomePart(home, ".cache/klab/run", name);
    var parts := NonEmpty([home, ".cache/klab/run", name]);
    var p := Join(parts, "/");
    assert p[0] == home[0] by { JoinStarts(parts); }
    PiecesAreNormal(p);
  }

  lemma JoinStarts(parts: seq<string>)
    requires parts != [] && parts[0] != ""
    ensures Join(parts, "/") != "" && Join(parts, "/")[0] == parts[0][0]
  {
  }

  /** When one node's run directory is that of another or inside it, for every two names
      and an absolute home: the components say. */
  lemma RunNestedIff(home: string, a: string, b: string)
    requires Rooted(home)
    ensures Under(RunDir(home, b), RunDir(home, a)) <==> RunPath(home, a) <= RunPath(home, b)
    ensures RunDir(home, a) == RunDir(home, b) <==> RunPath(home, a) == RunPath(home, b)
  {
    hide RunDir, RunPath, Normal, Text, Walk;
    RunDirOfPath(home, a);
    RunDirOfPath(home, b);
    UnderIff(RunPath(home, a), RunPath(home, b));
    WalkOfText(true, RunPath(home, a));
    WalkOfText(true, RunPath(home, b));
  }

  /** One-component names have run directories apart if and only if they differ. */
  lemma PlainRunsApartIff(home: string, a: string, b: string)
    requires PlainName(a) && PlainName(b)
    ensures Under(RunDir(home, b), RunDir(home, a)) <==> a == b
  {
    hide RunDir, RunLead;
    RunDirPlain(home, a);
    RunDirPlain(home, b);
    var lead := RunLead(home);
    var da, db := lead + a, lead + b;
    assert a == da[|lead|..] && b == db[|lead|..];
    assert !HasSuffix(da, "/") by { assert da[|da| - 1] == a[|a| - 1] && a[|a| - 1] in a; }
    var inside := da + "/";
    assert inside[|da|] == '/';
    assert |da| < |db| ==> db[|da|] == b[|a|] && b[|a|] in b;
  }

  lemma {:induction false} WalkConcat(rooted: bool, path: seq<string>, a: seq<string>, b: seq<string>)
    ensures Walk(rooted, path, a + b) == Walk(rooted, Walk(rooted, path, a), b)
    decreases |a|
  {
    hide Push;
    if a == [] {
      assert a + b == b;
    } else {
      assert (a + b)[1..] == a[1..] + b;
      WalkConcat(rooted, Push(rooted, path, a[0]), a[1..], b);
    }
  }

  /** The components of a run directory: from the directory of all run directories, walk
      the pieces of the name. */
  lemma RunPathIs(home: string, name: string)
    requires Rooted(home)
    ensures RunPath(home, name) == Walk(true, RunPath(home, ""), Pieces(name))
  {
    hide Walk, Pieces, Join, Push;
    var k := ".cache/klab/run";
    SomePart(home, k, name);
    SomePart(home, k, "");
    assert [home] + ([k] + []) == [home, k] && [home] + ([k] + [name]) == [home, k, name];
    var p, q := Join([home, k], "/"), Join([home, k, name], "/");
    JoinStarts([home, k]);
    JoinStarts([home, k, name]);
    if name == "" {
      NoSlash("");
      WalkSnoc(true, RunPath(home, ""), [], "");
      WalkNothing(true, RunPath(home, ""));
      assert [] + [""] == [""];
    } else {
      JoinEnd([home, k], name);
      assert [home, k] + [name] == [home, k, name];
      assert q == p + ("/" + name);
      PiecesConcat(p, name);
      WalkConcat(true, [], Pieces(p), Pieces(name));
    }
  }

  lemma WalkNothing(rooted: bool, path: seq<string>)
    ensures Walk(rooted, path, []) == path && Push(rooted, path, "") == path
  {
  }

  /** Node `.` has the directory of all run directories, and node `a/b` one inside that of
      node `a`. */
  lemma NestedNames(home: string, a: string, b: string)
    requires Rooted(home) && PlainName(a) && PlainName(b)
    ensures Under(RunDir(home, a), RunDir(home, "."))
    ensures Under(RunDir(home, a + ("/" + b)), RunDir(home, a))
  {
    hide RunDir, RunPath, Walk, Under, Push;
    var root := RunPath(home, "");
    RunPathIs(home, ".");
    RunPathIs(home, a);
    RunPathIs(home, a + ("/" + b));
    NoSlash(".");
    NoSlash(a);
    PiecesSnoc(a, b);
    WalkOne(root, ".");
    WalkOne(root, a);
    WalkSnoc(true, root, [a], b);
    PushPlain(true, root, a);
    PushPlain(true, root + [a], b);
    PushDot(root);
    RunNestedIff(home, ".", a);
    RunNestedIff(home, a, a + ("/" + b));
  }

  lemma WalkOne(path: seq<string>, x: string)
    ensures Walk(true, path, [x]) == Push(true, path, x)
  {
    WalkSnoc(true, path, [], x);
    assert [] + [x] == [x];
  }

  lemma PushDot(path: seq<string>)
    ensures Push(true, path, ".") == path
  {
  }

  /** The directories above a path. */
  function Parents(path: string): set<string> {
    set i | 0 < i < |path| && path[i] == '/' :: path[..i]
  }

  /** A path inside two directories has one of them inside the other. */
  lemma UnderBoth(path: string, a: string, b: string)
    requires Under(path, a) && Under(path, b) && |a| <= |b|
    ensures Under(b, a)
  {
    if a != b && path != a {
      var inside := Inside(a);
      assert path[..|inside|] == inside;
      if path == b {
      } else {
        assert path[..|b|] == b by { assert b == Inside(b)[..|b|]; }
        if |inside| <= |b| {
          assert b[..|inside|] == path[..|inside|];
        }
      }
    }
  }

  /** Under a clean absolute home, the run directory of a one-component name as a text. */
  lemma RunDirIs(home: string, name: string)
    requires Rooted(home) && Clean(home) == home && home != "/" && PlainName(name)
    ensures RunDir(home, name) == home + "/.cache/klab/run/" + name
  {
    hide Walk, Pieces, Join, Clean, RunDir, Normal;
    var path := Walk(true, [], Pieces(home));
    var a := home + ("/" + ".cache");
    var b := a + ("/" + "klab");
    CleanText(home, true, path);
    OneBelow(home, ".cache");
    OneBelow(a, "klab");
    OneBelow(b, "run");
    assert RunBase(home) == b + ("/" + "run") by {
      assert ".cache" + ("/" + "klab") + ("/" + "run") == ".cache/klab/run";
    }
    RunDirPlain(home, name);
    LeadIs(home, path);
  }

  /** A name below a run directory. */
  lemma JoinBelowRun(home: string, name: string, x: string)
    requires Rooted(home) && PlainName(name) && PlainName(x)
    ensures PathJoin([RunDir(home, name), x]) == RunDir(home, name) + "/" + x
  {
    hide Walk, Pieces, Join, Clean, RunDir, Normal, RunPath, NonEmpty;
    var run, path := RunDir(home, name), RunPath(home, name);
    RunDirOfPath(home, name);
    RunPathIs(home, name);
    NoSlash(name);
    WalkOne(RunPath(home, ""), name);
    PushPlain(true, RunPath(home, ""), name);
    JoinTwo(run, x);
    OneBelow(run, x);
    WalkOfText(true, path);
    CleanText(run + ("/" + x), true, path + [x]);
    JoinSnoc(path, x);
    assert "/" + (Join(path, "/") + ("/" + x)) == run + "/" + x;
  }

  lemma LeadIs(home: string, path: seq<string>)
    requires home == "/" + Join(path, "/") && home != "/"
    ensures "/" + (Join(path + [".cache"] + ["klab"] + ["run"], "/") + "/") == home + "/.cache/klab/run/"
  {
    assert path != [];
    JoinSnoc(path, ".cache");
    JoinSnoc(path + [".cache"], "klab");
    JoinSnoc(path + [".cache"] + ["klab"], "run");
    var j := Join(path, "/");
    assert j + ("/" + ".cache") + ("/" + "klab") + ("/" + "run") + "/" == j + "/.cache/klab/run/";
  }

  // ----- the program's base root file system -----------------------------

  function BaseOf(home: string): string { PathJoin([home, ".cache/klab/rootfs/base/bpf-min"]) }

  /** The components of klab's directory; run directories and the base are below it. */
  function KlabPath(home: string): seq<string> {
    Walk(true, [], Pieces(home + ("/" + ".cache"))) + ["klab"]
  }

  lemma KlabNormal(home: string)
    requires Rooted(home)
    ensures Normal(true, KlabPath(home))
    ensures Walk(true, [], Pieces(home + ("/" + ".cache/klab"))) == KlabPath(home)
  {
    hide Walk, Pieces, Normal;
    var p := home + ("/" + ".cache");
    assert Rooted(p) && p + ("/" + "klab") == home + ("/" + ".cache/klab");
    PiecesSnoc(p, "klab");
    WalkSnoc(true, [], Pieces(p), "klab");
    PushPlain(true, Walk(true, [], Pieces(p)), "klab");
    PiecesAreNormal(home + ("/" + ".cache/klab"));
  }

  lemma BasePathIs(home: string)
    requires Rooted(home)
    ensures var path := KlabPath(home) + ["rootfs"] + ["base"] + ["bpf-min"];
            BaseOf(home) == Text(true, path) && Normal(true, path)
  {
    hide Walk, Pieces, Normal, Clean, KlabPath, Text, Join, NonEmpty;
    var a := home + ("/" + ".cache/klab");
    var b := a + ("/" + "rootfs");
    var c := b + ("/" + "base");
    var d := c + ("/" + "bpf-min");
    var k := ".cache/klab/rootfs/base/bpf-min";
    KlabNormal(home);
    OneBelow(a, "rootfs");
    OneBelow(b, "base");
    OneBelow(c, "bpf-min");
    JoinTwo(home, k);
    BaseText(home);
    assert Rooted(d);
    CleanText(d, true, Walk(true, [], Pieces(d)));
    PiecesAreNormal(d);
  }

  lemma JoinTwo(a: string, b: string)
    requires a != "" && b != ""
    ensures NonEmpty([a, b]) == [a, b] && Join([a, b], "/") == a + ("/" + b)
  {
    assert [a, b][1..] == [b] && [b][1..] == [];
    assert NonEmpty([b]) == [b];
    assert a + "/" + b == a + ("/" + b);
  }

  lemma BaseText(home: string)
    ensures home + ("/" + ".cache/klab") + ("/" + "rootfs") + ("/" + "base") + ("/" + "bpf-min") ==
            home + ("/" + ".cache/klab/rootfs/base/bpf-min")
  {
    assert ".cache/klab" + ("/" + "rootfs") + ("/" + "base") + ("/" + "bpf-min") == ".cache/klab/rootfs/base/bpf-min";
  }

  lemma OneBelow(p: string, name: string)
    requires PlainName(name)
    ensures Walk(true, [], Pieces(p + ("/" + name))) == Walk(true, [], Pieces(p)) + [name]
  {
    hide Walk, Pieces;
    PiecesSnoc(p, name);
    WalkSnoc(true, [], Pieces(p), name);
    PushPlain(true, Walk(true, [], Pieces(p)), name);
  }

  /** The run directories' own directory. */
  lemma RunsPathIs(home: string)
    requires Rooted(home)
    ensures RunPath(home, "") == KlabPath(home) + ["run"]
  {
    hide Walk, Pieces, KlabPath;
    var k := ".cache/klab/run";
    SomePart(home, k, "");
    assert [home] + ([k] + []) == [home, k] && [home, k][1..] == [k];
    assert Join([home, k], "/") == home + "/" + k;
    assert home + "/" + k == home + ("/" + ".cache/klab") + ("/" + "run") by {
      assert ".cache/klab" + ("/" + "run") == k;
    }
    KlabNormal(home);
    OneBelow(home + ("/" + ".cache/klab"), "run");
  }

  /** One-component names keep clear of the program's base. */
  lemma BaseIsSafe(home: string, name: string)
    requires Rooted(home) && PlainName(name)
    ensures !Under(Clean(BaseOf(home)), RunDir(home, name)) && !Under(RunDir(home, name), Clean(BaseOf(home)))
  {
    hide Walk, Pieces, Normal, Text, RunDir, RunPath, Under, Clean, PathJoin;
    var k := KlabPath(home);
    var base, run := k + ["rootfs"] + ["base"] + ["bpf-min"], k + ["run"] + [name];
    BasePathIs(home);
    CleanOfNormal(base);
    RunPathIs(home, name);
    RunsPathIs(home);
    NoSlash(name);
    WalkOne(k + ["run"], name);
    PushPlain(true, k + ["run"], name);
    RunDirOfPath(home, name);
    UnderIff(run, base);
    UnderIff(base, run);
    assert base[|k|] == "rootfs" && run[|k|] == "run";
  }

  lemma CleanOfNormal(path: seq<string>)
    requires Normal(true, path)
    ensures Clean(Text(true, path)) == Text(true, path)
  {
    hide Walk, Pieces, Normal, Text;
    WalkOfText(true, path);
    RootedText(true, path);
  }

  /** Node `..` has klab's own directory, and the program's base is in its tree. */
  lemma BaseInTree(home: string)
    requires Rooted(home)
    ensures RunDir(home, "..") == Text(true, KlabPath(home))
    ensures Clean(BaseOf(home)) == RunDir(home, "..") + "/rootfs/base/bpf-min"
    ensures HasSuffix(RunDir(home, ".."), "klab")
  {
    hide Walk, Pieces, Normal, Text, RunDir, RunPath, Clean, PathJoin, KlabPath;
    var k := KlabPath(home);
    var base := k + ["rootfs"] + ["base"] + ["bpf-min"];
    BasePathIs(home);
    CleanOfNormal(base);
    RunPathIs(home, "..");
    RunsPathIs(home);
    NoSlash("..");
    WalkOne(k + ["run"], "..");
    assert Push(true, k + ["run"], "..") == k by { assert (k + ["run"])[..|k|] == k; }
    RunDirOfPath(home, "..");
    assert k != [] && k[|k| - 1] == "klab" by { KlabEnds(home); }
    TextBelow(k);
    var front := k[..|k| - 1];
    assert front + ["klab"] == k;
    JoinEnd(front, "klab");
    EndsInKlab(front);
  }

  lemma KlabEnds(home: string)
    ensures KlabPath(home) != [] && KlabPath(home)[|KlabPath(home)| - 1] == "klab"
  {
    hide Walk, Pieces;
  }

  lemma TextBelow(k: seq<string>)
    requires k != []
    ensures Text(true, k + ["rootfs"] + ["base"] + ["bpf-min"]) == Text(true, k) + "/rootfs/base/bpf-min"
  {
    hide Join;
    JoinSnoc(k, "rootfs");
    JoinSnoc(k + ["rootfs"], "base");
    JoinSnoc(k + ["rootfs"] + ["base"], "bpf-min");
    var j := Join(k, "/");
    assert j + ("/" + "rootfs") + ("/" + "base") + ("/" + "bpf-min") == j + "/rootfs/base/bpf-min";
  }

  lemma EndsInKlab(front: seq<string>)
    ensures HasSuffix(Text(true, front + ["klab"]), "klab")
  {
    hide Join;
    JoinEnd(front, "klab");
    var t := Text(true, front + ["klab"]);
    assert t[|t| - 4..] == "klab";
  }
}
