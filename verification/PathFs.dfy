/** Resolving paths against a working directory, and which inodes are open at any time. */
module PathFs {
  /** An opened inode: which file it is, and an identity that no other opened inode ever has. */
  datatype Inode = Inode(id: nat, node: nat)

  /** One step of a resolved path. */
  datatype Level = Level(inode: Inode, name: string)

  datatype Looked = Node(node: nat) | Missing(error: nat)

  /** What a file system answers; it does not change between calls. */
  type Files = (nat, string) -> Looked

  /** A place in the tree: the files and names from the root to it. */
  datatype Place = Place(node: nat, name: string)

  datatype Result<T> = Ok(value: T) | Err(error: nat)

  const MAX_RECURSION := 256
  const PATH_TOO_DEEP := 8008 * 0x200 + 0xDD
  const NAME_TOO_LONG := 8003 * 0x200 + 0xDD

  // ----- what resolving means -----

  /** How far a name reaches from the start of a string. */
  function Span(s: string): (n: nat)
    ensures n <= |s|
    ensures forall i :: 0 <= i < n ==> s[i] != '/'
    ensures n < |s| ==> s[n] == '/'
  {
    if s == "" || s[0] == '/' then 0 else 1 + Span(s[1..])
  }

  /** The names of a path. */
  function Segments(path: string): seq<string>
    decreases |path|
  {
    if path == "" then []
    else if path[0] == '/' then Segments(path[1..])
    else [path[..Span(path)]] + Segments(path[Span(path)..])
  }

  /** Following one name; the root is its own parent. */
  function Follow(files: Files, at: seq<Place>, name: string): (r: Result<seq<Place>>)
    requires at != []
    ensures r.Ok? ==> r.value != [] && r.value[0] == at[0]
  {
    if name == ".." then Ok(if |at| > 1 then at[..|at| - 1] else at)
    else if name == "." then Ok(at)
    else if |at| >= MAX_RECURSION then Err(PATH_TOO_DEEP)
    else
      match files(at[|at| - 1].node, name)
      case Missing(e) => Err(e)
      case Node(n) => Ok(at + [Place(n, name)])
  }

  function FollowAll(files: Files, at: seq<Place>, names: seq<string>): (r: Result<seq<Place>>)
    requires at != []
    ensures r.Ok? ==> r.value != [] && r.value[0] == at[0]
    decreases |names|
  {
    if names == [] then Ok(at)
    else
      match Follow(files, at, names[0])
      case Err(e) => Err(e)
      case Ok(next) => FollowAll(files, next, names[1..])
  }

  /** A path that starts with a slash starts at the root. */
  function Resolve(files: Files, cwd: seq<Place>, path: string): (r: Result<seq<Place>>)
    requires cwd != []
    ensures r.Ok? ==> r.value != [] && r.value[0] == cwd[0]
  {
    FollowAll(files, if path != "" && path[0] == '/' then cwd[..1] else cwd, Segments(path))
  }

  // ----- canonical paths -----

  predicate ProperName(name: string) {
    name != "" && name != "." && name != ".." && '/' !in name
  }

  /** Every level was found below the one before it. */
  predicate Reached(files: Files, at: seq<Place>) {
    && 1 <= |at| <= MAX_RECURSION && at[0].name == ""
    && forall i :: 1 <= i < |at| ==> ProperName(at[i].name) && files(at[i - 1].node, at[i].name) == Node(at[i].node)
  }

  /** The names of the levels with a slash in front of each but the first. */
  function PathOf(at: seq<Place>): string {
    if at == [] then "" else if |at| == 1 then at[0].name else PathOf(at[..|at| - 1]) + "/" + at[|at| - 1].name
  }

  /** The names below the root. */
  function Names(at: seq<Place>): seq<string> {
    if |at| <= 1 then [] else Names(at[..|at| - 1]) + [at[|at| - 1].name]
  }

  lemma SpanIs(s: string, n: nat)
    requires n <= |s| && (forall i :: 0 <= i < n ==> s[i] != '/') && (n < |s| ==> s[n] == '/')
    ensures Span(s) == n
  {
  }

  /** A slash between two paths puts the names of the one behind the names of the other. */
  lemma {:induction false} SegmentsJoin(path: string, more: string)
    ensures Segments(path + "/" + more) == Segments(path) + Segments(more)
    decreases |path|
  {
    hide Segments, Span;
    var all := path + "/" + more;
    NothingInNothing();
    SegmentsUnfold(all);
    if path == "" {
      assert all[1..] == more;
    } else if path[0] == '/' {
      SegmentsUnfold(path);
      assert all[1..] == path[1..] + "/" + more;
      SegmentsJoin(path[1..], more);
    } else {
      SegmentsUnfold(path);
      SpanBefore(path, more);
      SegmentsJoin(path[Span(path)..], more);
    }
  }

  lemma SegmentsUnfold(path: string)
    requires path != ""
    ensures path[0] == '/' ==> Segments(path) == Segments(path[1..])
    ensures path[0] != '/' ==>
              0 < Span(path) && Segments(path) == [path[..Span(path)]] + Segments(path[Span(path)..])
  {
  }

  /** A slash behind a path does not change how far its first name reaches. */
  lemma SpanBefore(path: string, more: string)
    requires path != ""
    ensures var all, n := path + "/" + more, Span(path);
            Span(all) == n && all[..n] == path[..n] && all[n..] == path[n..] + "/" + more
  {
    hide Span;
    var all, n := path + "/" + more, Span(path);
    assert forall i :: 0 <= i < n ==> all[i] == path[i];
    SpanIs(all, n);
  }

  lemma SegmentsOfName(name: string)
    requires name != "" && '/' !in name
    ensures Segments(name) == [name]
  {
    SpanIs(name, |name|);
    assert name[..|name|] == name && name[|name|..] == "";
  }

  /** A slash and a name behind a path add that name to its segments. */
  lemma SegmentsMore(path: string, name: string)
    requires name != "" && '/' !in name
    ensures Segments(path + "/" + name) == Segments(path) + [name]
  {
    hide Segments;
    SegmentsJoin(path, name);
    SegmentsOfName(name);
  }

  lemma {:induction false} SegmentsOfRealPath(files: Files, at: seq<Place>)
    requires Reached(files, at)
    ensures Segments(PathOf(at)) == Names(at)
    ensures if |at| == 1 then PathOf(at) == "" else PathOf(at) != "" && PathOf(at)[0] == '/'
    decreases |at|
  {
    if |at| > 1 {
      var up := at[..|at| - 1];
      assert Reached(files, up);
      SegmentsOfRealPath(files, up);
      SegmentsMore(PathOf(up), at[|at| - 1].name);
    }
  }

  lemma {:induction false} FollowJoin(files: Files, at: seq<Place>, names: seq<string>, more: seq<string>)
    requires at != []
    ensures FollowAll(files, at, names + more) ==
            match FollowAll(files, at, names)
            case Err(e) => Err(e)
            case Ok(next) => FollowAll(files, next, more)
    decreases |names|
  {
    if names == [] {
      assert names + more == more;
    } else {
      assert (names + more)[0] == names[0] && (names + more)[1..] == names[1..] + more;
      match Follow(files, at, names[0])
      case Err(e) =>
      case Ok(next) => FollowJoin(files, next, names[1..], more);
    }
  }

  lemma FollowOneMore(files: Files, at: seq<Place>, names: seq<string>, name: string)
    requires at != []
    ensures FollowAll(files, at, names + [name]) ==
            match FollowAll(files, at, names)
            case Err(e) => Err(e)
            case Ok(next) => Follow(files, next, name)
  {
    FollowJoin(files, at, names, [name]);
    assert [name][1..] == [];
  }

  /** The level above a reached place is reached, and the last name leads down again. */
  lemma ReachedUp(files: Files, at: seq<Place>)
    requires Reached(files, at) && |at| > 1
    ensures var up := at[..|at| - 1];
            Reached(files, up) && up[..1] == at[..1] && Follow(files, up, at[|at| - 1].name) == Ok(at)
  {
    assert at[..|at| - 1] + [at[|at| - 1]] == at;
  }

  /** Following the names of a reached place from the root reaches it. */
  lemma {:induction false} FollowNames(files: Files, at: seq<Place>)
    requires Reached(files, at)
    ensures at != [] && FollowAll(files, at[..1], Names(at)) == Ok(at)
    decreases |at|
  {
    if |at| == 1 {
      assert at[..1] == at;
    } else {
      hide Reached, Follow, FollowAll;
      ReachedUp(files, at);
      FollowNames(files, at[..|at| - 1]);
      FollowOneMore(files, at[..1], Names(at[..|at| - 1]), at[|at| - 1].name);
    }
  }

  /** The path given for a place leads back to it from any working directory, unless the place is the root. */
  lemma RealPathLeadsBack(files: Files, cwd: seq<Place>, at: seq<Place>)
    requires Reached(files, at) && cwd != [] && cwd[0] == at[0]
    ensures Resolve(files, cwd, PathOf(at)) == Ok(at) <==> |at| > 1 || cwd == at
  {
    SegmentsOfRealPath(files, at);
    if |at| > 1 {
      FollowNames(files, at);
      assert cwd[..1] == at[..1];
    }
  }

  lemma {:induction false} SegmentsAreNames(path: string, k: nat)
    requires k < |Segments(path)|
    ensures Segments(path)[k] != "" && '/' !in Segments(path)[k]
    decreases |path|
  {
    if path[0] == '/' {
      SegmentsAreNames(path[1..], k);
    } else if k > 0 {
      SegmentsAreNames(path[Span(path)..], k - 1);
    }
  }

  /** Following a name keeps every level found below the one before it. */
  lemma FollowReaches(files: Files, at: seq<Place>, name: string)
    requires Reached(files, at) && name != "" && '/' !in name
    ensures var r := Follow(files, at, name); r.Ok? ==> Reached(files, r.value)
  {
  }

  lemma {:induction false} FollowAllReaches(files: Files, at: seq<Place>, names: seq<string>)
    requires Reached(files, at) && forall k :: 0 <= k < |names| ==> names[k] != "" && '/' !in names[k]
    ensures var r := FollowAll(files, at, names); r.Ok? ==> Reached(files, r.value)
    decreases |names|
  {
    if names != [] {
      hide Reached;
      FollowReaches(files, at, names[0]);
      match Follow(files, at, names[0])
      case Err(e) =>
      case Ok(next) => FollowAllReaches(files, next, names[1..]);
    }
  }

  /** Resolving keeps every level found below the one before it. */
  lemma ResolveReaches(files: Files, cwd: seq<Place>, path: string)
    requires Reached(files, cwd)
    ensures var r := Resolve(files, cwd, path); r.Ok? ==> Reached(files, r.value)
  {
    forall k | 0 <= k < |Segments(path)|
      ensures Segments(path)[k] != "" && '/' !in Segments(path)[k]
    {
      SegmentsAreNames(path, k);
    }
    assert Reached(files, cwd[..1]);
    FollowAllReaches(files, cwd[..1], Segments(path));
    FollowAllReaches(files, cwd, Segments(path));
  }

  // ----- laws of paths -----

  /** A path behind a path, with any number of slashes between them, is resolved from where the first one leads. */
  lemma ResolveJoin(files: Files, cwd: seq<Place>, path: string, more: string)
    requires cwd != [] && path != ""
    ensures Resolve(files, cwd, path + "/" + more) ==
            match Resolve(files, cwd, path)
            case Err(e) => Err(e)
            case Ok(at) => FollowAll(files, at, Segments(more))
  {
    hide Segments, FollowAll;
    SegmentsJoin(path, more);
    assert (path + "/" + more)[0] == path[0];
    FollowJoin(files, if path[0] == '/' then cwd[..1] else cwd, Segments(path), Segments(more));
  }

  lemma FollowOne(files: Files, at: seq<Place>, name: string)
    requires at != [] && name != "" && '/' !in name
    ensures FollowAll(files, at, Segments(name)) == Follow(files, at, name)
  {
    hide Segments;
    SegmentsOfName(name);
    assert [name][1..] == [];
  }

  /** The place above; the root is above itself. */
  function Above(at: seq<Place>): seq<Place> {
    if |at| <= 1 then at else at[..|at| - 1]
  }

  /** ".." leads to the place above, "." and a slash at the end stay, and any other name is looked up. */
  lemma ResolveUp(files: Files, cwd: seq<Place>, path: string)
    requires cwd != [] && path != ""
    ensures Resolve(files, cwd, path + "/..") ==
            match Resolve(files, cwd, path) case Err(e) => Err(e) case Ok(at) => Ok(Above(at))
    ensures Resolve(files, cwd, path + "/.") == Resolve(files, cwd, path)
    ensures Resolve(files, cwd, path + "/") == Resolve(files, cwd, path)
    ensures Resolve(files, cwd, "..") == Ok(Above(cwd)) && Resolve(files, cwd, "/..") == Ok(cwd[..1])
    ensures Resolve(files, cwd, "") == Resolve(files, cwd, ".") == Ok(cwd)
  {
    hide Segments, FollowAll, Resolve;
    ResolveJoin(files, cwd, path, "..");
    ResolveJoin(files, cwd, path, ".");
    ResolveJoin(files, cwd, path, "");
    assert path + "/" + ".." == path + "/.." && path + "/" + "." == path + "/." && path + "/" + "" == path + "/";
    NamesAlone(files, cwd);
    match Resolve(files, cwd, path)
    case Err(e) =>
    case Ok(at) =>
      FollowOne(files, at, "..");
      FollowOne(files, at, ".");
      NoNames(files, at);
  }

  lemma NoNames(files: Files, at: seq<Place>)
    requires at != []
    ensures FollowAll(files, at, Segments("")) == Ok(at)
  {
  }

  lemma NamesAlone(files: Files, cwd: seq<Place>)
    requires cwd != []
    ensures Resolve(files, cwd, "..") == Ok(Above(cwd)) && Resolve(files, cwd, "/..") == Ok(cwd[..1])
    ensures Resolve(files, cwd, "") == Resolve(files, cwd, ".") == Ok(cwd)
  {
    hide Segments, FollowAll;
    FollowOne(files, cwd, "..");
    FollowOne(files, cwd, ".");
    FollowOne(files, cwd[..1], "..");
    NoNames(files, cwd);
    SegmentsJoin("", "..");
    NothingInNothing();
    assert "" + "/" + ".." == "/.." && [] + Segments("..") == Segments("..");
  }

  lemma NothingInNothing()
    ensures Segments("") == []
  {
  }

  /** Down by a name that is found and up again is nowhere; a level below the deepest there is an error. */
  lemma ResolveDown(files: Files, cwd: seq<Place>, path: string, name: string)
    requires cwd != [] && path != "" && ProperName(name)
    ensures Resolve(files, cwd, path + "/" + name) ==
            match Resolve(files, cwd, path)
            case Err(e) => Err(e)
            case Ok(at) =>
              if |at| >= MAX_RECURSION then Err(PATH_TOO_DEEP)
              else
                match files(at[|at| - 1].node, name)
                case Missing(e) => Err(e)
                case Node(n) => Ok(at + [Place(n, name)])
    ensures Resolve(files, cwd, path + "/" + name).Ok? ==>
              Resolve(files, cwd, path + "/" + name + "/..") == Resolve(files, cwd, path)
  {
    hide Segments, FollowAll, Resolve;
    ResolveJoin(files, cwd, path, name);
    ResolveUp(files, cwd, path + "/" + name);
    match Resolve(files, cwd, path)
    case Err(e) =>
    case Ok(at) => FollowOne(files, at, name);
  }

  /** A path that does not start with a slash means what it means behind the path of the working directory. */
  lemma RelativeIsAbsolute(files: Files, cwd: seq<Place>, other: seq<Place>, path: string)
    requires Reached(files, cwd) && |cwd| > 1 && other != [] && other[0] == cwd[0]
    requires path == "" || path[0] != '/'
    ensures Resolve(files, cwd, path) == Resolve(files, other, PathOf(cwd) + "/" + path)
  {
    hide Segments, FollowAll;
    SegmentsOfRealPath(files, cwd);
    RealPathLeadsBack(files, other, cwd);
    ResolveJoin(files, other, PathOf(cwd), path);
  }
}
