/** `lib/fs/fs.c`: a stack of inodes, some borrowed from the working directory, some opened on the way. */
module PathWalk {
  import opened Types
  import opened PathFs

  function Places(levels: seq<Level>): seq<Place> {
    seq(|levels|, i requires 0 <= i < |levels| => Place(levels[i].inode.node, levels[i].name))
  }

  function Ids(levels: seq<Level>): set<nat> {
    set i | 0 <= i < |levels| :: levels[i].inode.id
  }

  predicate Distinct(levels: seq<Level>) {
    forall i, j :: 0 <= i < j < |levels| ==> levels[i].inode.id != levels[j].inode.id
  }

  /** What a traversal starts from: the working directory, the open inodes, and the next identity. */
  datatype Start = Start(cwd: seq<Level>, open: set<nat>, nextId: nat)

  /**
   During a traversal: the levels up to `borrowed` are those of the working directory, the others were opened on the
   way, and exactly those are open besides what was open before.
   */
  ghost predicate Walking(w: Start, at: seq<Level>, borrowed: nat, open: set<nat>, nextId: nat) {
    && borrowed < |at| && borrowed < |w.cwd| && at[..borrowed + 1] == w.cwd[..borrowed + 1]
    && Distinct(at[borrowed + 1..])
    && (forall i :: borrowed < i < |at| ==> w.nextId <= at[i].inode.id < nextId)
    && (forall x :: x in w.open ==> x < w.nextId) && w.nextId <= nextId
    && open == w.open + Ids(at[borrowed + 1..])
  }

  /** The working directory, and the inodes that are open. */
  class Fs {
    const files: Files
    const cwd: array<Level>
    var depth: nat
    var nextId: nat
    ghost var open: set<nat>

    /** The open inodes are exactly those of the working directory, from the root on. */
    ghost predicate Valid()
      reads this, cwd
    {
      && cwd.Length == MAX_RECURSION && depth < MAX_RECURSION
      && Distinct(cwd[..depth + 1]) && open == Ids(cwd[..depth + 1])
      && (forall i :: 0 <= i <= depth ==> cwd[i].inode.id < nextId)
      && Reached(files, Places(cwd[..depth + 1]))
    }

    ghost function Cwd(): seq<Place>
      reads this, cwd
      requires depth < cwd.Length
    {
      Places(cwd[..depth + 1])
    }

    /** `trn_fs_set_root`, when there is no root yet. */
    constructor (files: Files, root: nat)
      ensures Valid() && fresh(cwd) && Cwd() == [Place(root, "")] && open == {cwd[0].inode.id}
    {
      this.files := files;
      cwd := new Level[MAX_RECURSION](_ => Level(Inode(0, root), ""));
      depth, nextId, open := 0, 1, {0};
      new;
      assert cwd[..depth + 1] == [cwd[0]];
      IdsFirst(cwd[..depth + 1]);
    }

    /**
     `trn_fs_set_root` when there is a root: the old one is released and the new one, which comes open, becomes the
     working directory. What the old working directory held below its root stays open, so that the open inodes are those
     of the new one exactly when it held nothing.
     */
    method SetRoot(root: nat)
      requires Valid()
      modifies this, cwd
      ensures depth < cwd.Length && Cwd() == [Place(root, "")] && cwd[0].inode.id == old(nextId)
      ensures open == old(open) - {old(cwd[0].inode.id)} + {cwd[0].inode.id}
      ensures Valid() <==> old(depth) == 0
    {
      ghost var held := cwd[..depth + 1];
      IdsFirst(held);
      if depth > 0 { IdsFirst(held[1..]); }
      Release(cwd[0].inode);
      open := open + {nextId};
      cwd[0] := Level(Inode(nextId, root), "");
      depth := 0;
      nextId := nextId + 1;
      assert cwd[..depth + 1] == [cwd[0]];
      IdsFirst(cwd[..depth + 1]);
      assert Ids(cwd[..depth + 1]) == {cwd[0].inode.id};
    }

    /** The `lookup` of an inode: opens an inode for the name. */
    method Lookup(inode: Inode, name: string) returns (r: Result<Inode>)
      modifies this`nextId, this`open
      ensures match files(inode.node, name)
              case Missing(e) => r == Err(e) && open == old(open) && nextId == old(nextId)
              case Node(n) =>
                && r == Ok(Inode(old(nextId), n)) && open == old(open) + {old(nextId)} && nextId == old(nextId) + 1
    {
      match files(inode.node, name)
      case Missing(e) =>
        r := Err(e);
      case Node(n) =>
        r := Ok(Inode(nextId, n));
        open := open + {nextId};
        nextId := nextId + 1;
    }

    /** The `release` of an inode: only an open one can be released. */
    method Release(inode: Inode)
      requires inode.id in open
      modifies this`open
      ensures open == old(open) - {inode.id}
    {
      open := open - {inode.id};
    }

    /** Releasing what a traversal opened and still holds. */
    method ReleaseFrom(levels: array<Level>, from: nat, to: nat, ghost keep: set<nat>)
      requires from <= to <= levels.Length
      requires Distinct(levels[from..to]) && open == keep + Ids(levels[from..to]) && keep !! Ids(levels[from..to])
      modifies this`open
      ensures open == keep
    {
      hide Ids, Distinct;
      ghost var all := levels[from..to];
      assert all[0..] == all;
      for i := from to to
        invariant open == keep + Ids(all[i - from..])
      {
        OneReleased(all, i - from);
        Release(levels[i].inode);
      }
      assert all[to - from..] == [];
      NoIds();
    }

    /** One segment of the loop in `trn_fs_traverse`. */
    method Step(trav: array<Level>, borrowed0: nat, depth0: nat, name: string, ghost w: Start)
      returns (error: Option<nat>, borrowed: nat, at: nat)
      requires trav.Length == MAX_RECURSION && trav != cwd && depth0 < MAX_RECURSION
      requires Walking(w, trav[..depth0 + 1], borrowed0, open, nextId)
      modifies trav, this`open, this`nextId
      ensures at < MAX_RECURSION && Walking(w, trav[..at + 1], borrowed, open, nextId)
      ensures match Follow(files, old(Places(trav[..depth0 + 1])), name)
              case Err(e) => error == Some(e)
              case Ok(next) => error == None && Places(trav[..at + 1]) == next
    {
      hide Walking, Places;
      borrowed, at, error := borrowed0, depth0, None;
      ghost var before := trav[..depth0 + 1];
      PlacesLast(before);
      if name == ".." {
        if at > 0 {
          Pops(w, before, borrowed, open, nextId);
          if at > borrowed {
            Release(trav[at].inode);
          } else {
            borrowed := borrowed - 1;
          }
          at := at - 1;
          assert trav[..at + 1] == before[..|before| - 1];
        }
      } else if name == "." {
      } else {
        if at + 1 >= MAX_RECURSION {
          return Some(PATH_TOO_DEEP), borrowed, at;
        }
        Pushes(w, before, borrowed, open, nextId, name);
        var r := Lookup(trav[at].inode, name);
        if r.Err? {
          return Some(r.error), borrowed, at;
        }
        trav[at + 1] := Level(r.value, name);
        at := at + 1;
        assert trav[..at + 1] == before + [Level(r.value, name)];
      }
    }

    /** The loop of `trn_fs_traverse`; on an error everything opened on the way is released again. */
    method FollowPath(path: string, trav: array<Level>, at0: nat, ghost w: Start)
      returns (error: Option<nat>, borrowed: nat, at: nat)
      requires trav.Length == MAX_RECURSION && trav != cwd && at0 < MAX_RECURSION
      requires Walking(w, trav[..at0 + 1], at0, open, nextId)
      modifies trav, this`open, this`nextId
      ensures w.nextId <= nextId && |Places(old(trav[..at0 + 1]))| > 0
      ensures match FollowAll(files, Places(old(trav[..at0 + 1])), Segments(path))
              case Err(e) => error == Some(e) && open == w.open
              case Ok(places) =>
                && error == None && at < MAX_RECURSION
                && Walking(w, trav[..at + 1], borrowed, open, nextId) && Places(trav[..at + 1]) == places
    {
      hide Walking, Places, Segments, Ids, Follow, FollowAll, Distinct;
      borrowed, at, error := at0, at0, None;
      PlacesLast(trav[..at + 1]);
      ghost var goal := FollowAll(files, Places(trav[..at + 1]), Segments(path));
      var p := 0;
      assert path[p..] == path;
      while p < |path|
        invariant p <= |path| && at < MAX_RECURSION && error == None
        invariant Walking(w, trav[..at + 1], borrowed, open, nextId)
        invariant |Places(trav[..at + 1])| > 0 && FollowAll(files, Places(trav[..at + 1]), Segments(path[p..])) == goal
        decreases |path| - p
      {
        p := SkipSlashes(path, p);
        var n := SegmentLength(path, p);
        SegmentsFrom(path, p);
        if n == 0 {
          break;
        }
        FollowFirst(files, Places(trav[..at + 1]), Segments(path[p..]));
        error, borrowed, at := Step(trav, borrowed, at, path[p..p + n], w);
        if error.Some? {
          Owned(w, trav[..at + 1], borrowed, open, nextId);
          assert trav[borrowed + 1..at + 1] == trav[..at + 1][borrowed + 1..];
          ReleaseFrom(trav, borrowed + 1, at + 1, w.open);
          return;
        }
        p := p + n;
      }
      SegmentsNone();
      assert path[p..] == "";
      FollowNone(files, Places(trav[..at + 1]));
      Owned(w, trav[..at + 1], borrowed, open, nextId);
    }

    /** `trn_fs_traverse`: the levels of the resolved path, and how many of them belong to the working directory. */
    method Traverse(path: string)
      returns (error: Option<nat>, trav: array<Level>, borrowed: nat, at: nat, ghost w: Start)
      requires Valid()
      modifies this`open, this`nextId
      ensures fresh(trav) && trav.Length == MAX_RECURSION
      ensures w == Start(cwd[..depth + 1], old(open), old(nextId)) && old(nextId) <= nextId
      ensures Cwd() != []
      ensures match Resolve(files, Cwd(), path)
              case Err(e) => error == Some(e) && open == old(open)
              case Ok(places) =>
                && error == None && at < MAX_RECURSION
                && Walking(w, trav[..at + 1], borrowed, open, nextId) && Places(trav[..at + 1]) == places
    {
      hide Walking, Places, Segments, Ids, Reached, FollowAll, Distinct;
      w := Start(cwd[..depth + 1], open, nextId);
      OpenIsOld();
      trav := CopyOfCwd();
      at := depth;
      if path != "" && path[0] == '/' {
        at := 0;
        assert trav[..at + 1] == cwd[..depth + 1][..1];
      }
      PlacesFirst(cwd[..depth + 1]);
      Starts(w, trav[..at + 1], at);
      error, borrowed, at := FollowPath(path, trav, at, w);
    }

    method CopyOfCwd() returns (trav: array<Level>)
      requires depth < cwd.Length == MAX_RECURSION
      ensures fresh(trav) && trav.Length == MAX_RECURSION && trav[..depth + 1] == cwd[..depth + 1]
    {
      trav := new Level[MAX_RECURSION](_ => Level(Inode(0, 0), ""));
      forall i | 0 <= i <= depth { trav[i] := cwd[i]; }
    }

    /** Giving back what a traversal opened leaves everything as it was. */
    method GiveBack(trav: array<Level>, borrowed: nat, at: nat, ghost w: Start)
      requires at < trav.Length && Walking(w, trav[..at + 1], borrowed, open, nextId)
      modifies this`open
      ensures open == w.open && w.nextId <= nextId
    {
      hide Walking, Ids, Distinct;
      Owned(w, trav[..at + 1], borrowed, open, nextId);
      assert trav[borrowed + 1..at + 1] == trav[..at + 1][borrowed + 1..];
      ReleaseFrom(trav, borrowed + 1, at + 1, w.open);
    }

    /**
     `trn_fs_open` and `trn_fs_opendir`, with what `open_as_file` or `open_as_dir` answers for a file: they open what
     the path resolves to, and no inode stays open on their account.
     */
    method OpenAs<T>(path: string, openAs: nat -> Result<T>) returns (r: Result<T>)
      requires Valid()
      modifies this`open, this`nextId
      ensures Valid() && open == old(open) && Cwd() != []
      ensures r == match Resolve(files, Cwd(), path)
                   case Err(e) => Err(e)
                   case Ok(places) => openAs(places[|places| - 1].node)
    {
      hide Walking, Places, Ids, Reached, FollowAll, Distinct, Resolve;
      var error, trav, borrowed, at, w := Traverse(path);
      if error.Some? {
        return Err(error.value);
      }
      PlacesLast(trav[..at + 1]);
      r := openAs(trav[at].inode.node);
      GiveBack(trav, borrowed, at, w);
    }

    /** `trn_fs_realpath`: the names of what the path resolves to, if they fit into 256 characters. */
    method RealPath(path: string) returns (r: Result<string>)
      requires Valid()
      modifies this`open, this`nextId
      ensures Valid() && open == old(open) && Cwd() != []
      ensures r == match Resolve(files, Cwd(), path)
                   case Err(e) => Err(e)
                   case Ok(places) =>
                     var full := PathOf(places);
                     if |full| + 1 > 256 then Err(NAME_TOO_LONG) else Ok(full)
    {
      hide Walking, Places, Ids, Reached, FollowAll, Distinct, Resolve, PathOf;
      var error, trav, borrowed, at, w := Traverse(path);
      if error.Some? {
        return Err(error.value);
      }
      r := Spell(trav, at);
      GiveBack(trav, borrowed, at, w);
    }

    /**
     `trn_fs_chdir`: the working directory becomes what the path resolves to; what only the old one held is released,
     what both hold stays open, and what the traversal opened stays open as part of the new one.
     */
    method ChangeDir(path: string) returns (error: Option<nat>)
      requires Valid()
      modifies this, cwd
      ensures Valid() && cwd[0] == old(cwd[0])
      ensures old(Cwd()) != []
      ensures match Resolve(files, old(Cwd()), path)
              case Err(e) => error == Some(e) && Cwd() == old(Cwd()) && open == old(open)
              case Ok(places) => error == None && Cwd() == places
    {
      hide Walking, Places, Ids, Reached, FollowAll, Distinct, Resolve;
      ghost var was := cwd[..depth + 1];
      var trav, borrowed, at;
      ghost var w;
      error, trav, borrowed, at, w := Traverse(path);
      if error.Some? {
        return;
      }
      ghost var now := trav[..at + 1];
      ResolveReaches(files, Places(was), path);
      Adopted(w, now, borrowed, open, nextId);
      assert cwd[borrowed + 1..depth + 1] == was[borrowed + 1..];
      ReleaseFrom(cwd, borrowed + 1, depth + 1, Ids(now));
      depth := at;
      forall i | 0 <= i <= depth { cwd[i] := trav[i]; }
      assert cwd[..depth + 1] == now;
    }

    lemma OpenIsOld()
      requires Valid()
      ensures forall x :: x in open ==> x < nextId
    {
      hide Reached, Distinct;
    }
  }

  /** The size of a resolved path in `trn_fs_realpath`. */
  method SpelledSize(trav: array<Level>, at: nat) returns (size: nat)
    requires at < trav.Length
    ensures size == |PathOf(Places(trav[..at + 1]))| + 1
  {
    hide Places, PathOf;
    ghost var all := trav[..at + 1];
    assert all[..at + 1] == all;
    size := 0;
    for i := 0 to at + 1
      invariant size == if i == 0 then 0 else |PathOf(Places(all[..i]))| + 1
    {
      NameAdded(all, i);
      size := size + |trav[i].name| + 1;
    }
  }

  /** The copy of it. */
  method Spelled(trav: array<Level>, at: nat) returns (full: string)
    requires at < trav.Length
    ensures full == PathOf(Places(trav[..at + 1])) + "/"
  {
    hide Places, PathOf;
    ghost var all := trav[..at + 1];
    assert all[..at + 1] == all;
    full := "";
    for i := 0 to at + 1
      invariant full == if i == 0 then "" else PathOf(Places(all[..i])) + "/"
    {
      NameAdded(all, i);
      full := full + trav[i].name;
      full := full + "/";
    }
  }

  method Spell(trav: array<Level>, at: nat) returns (r: Result<string>)
    requires at < trav.Length
    ensures var full := PathOf(Places(trav[..at + 1]));
            r == if |full| + 1 > 256 then Err(NAME_TOO_LONG) else Ok(full)
  {
    hide Places, PathOf;
    var size := SpelledSize(trav, at);
    if size > 256 {
      return Err(NAME_TOO_LONG);
    }
    var full := Spelled(trav, at);
    r := Ok(full[..|full| - 1]);
  }

  lemma PlacesFirst(at: seq<Level>)
    requires at != []
    ensures |Places(at)| == |at| && Places(at[..1]) == Places(at)[..1]
  {
  }

  method SkipSlashes(path: string, p: nat) returns (q: nat)
    requires p <= |path|
    ensures p <= q <= |path| && (q < |path| ==> path[q] != '/')
    ensures Segments(path[q..]) == Segments(path[p..])
  {
    q := p;
    while q < |path| && path[q] == '/'
      invariant p <= q <= |path| && Segments(path[q..]) == Segments(path[p..])
    {
      assert path[q..][1..] == path[q + 1..];
      q := q + 1;
    }
  }

  method SegmentLength(path: string, p: nat) returns (n: nat)
    requires p <= |path|
    ensures p + n <= |path| && n == Span(path[p..])
  {
    n := 0;
    while p + n < |path| && path[p + n] != '/'
      invariant p + n <= |path| && forall i :: p <= i < p + n ==> path[i] != '/'
    {
      n := n + 1;
    }
    SpanIs(path[p..], n);
  }

  lemma SegmentsFrom(path: string, p: nat)
    requires p <= |path| && (p < |path| ==> path[p] != '/')
    ensures p == |path| <==> Span(path[p..]) == 0
    ensures p == |path| ==> Segments(path[p..]) == []
    ensures p < |path| ==> Segments(path[p..]) == [path[p..p + Span(path[p..])]] + Segments(path[p + Span(path[p..])..])
  {
    var s := path[p..];
    if p < |path| {
      assert s[..Span(s)] == path[p..p + Span(s)] && s[Span(s)..] == path[p + Span(s)..];
    }
  }

  lemma SegmentsNone()
    ensures Segments("") == []
  {
  }

  lemma FollowNone(files: Files, at: seq<Place>)
    requires at != []
    ensures FollowAll(files, at, []) == Ok(at)
  {
  }

  lemma FollowFirst(files: Files, at: seq<Place>, names: seq<string>)
    requires at != [] && names != []
    ensures FollowAll(files, at, names) ==
            match Follow(files, at, names[0])
            case Err(e) => Err(e)
            case Ok(next) => FollowAll(files, next, names[1..])
    ensures Follow(files, at, names[0]).Ok? ==> Follow(files, at, names[0]).value != []
  {
  }

  /** What a traversal holds is open, distinct, and new. */
  lemma Owned(w: Start, at: seq<Level>, borrowed: nat, open: set<nat>, nextId: nat)
    requires Walking(w, at, borrowed, open, nextId)
    ensures borrowed < |at| && Distinct(at[borrowed + 1..]) && w.nextId <= nextId
    ensures open == w.open + Ids(at[borrowed + 1..]) && w.open !! Ids(at[borrowed + 1..])
  {
  }

  lemma Starts(w: Start, at: seq<Level>, borrowed: nat)
    requires at != [] && borrowed == |at| - 1 && at <= w.cwd && forall x :: x in w.open ==> x < w.nextId
    ensures Walking(w, at, borrowed, w.open, w.nextId)
  {
    assert at[borrowed + 1..] == [];
  }

  lemma PlacesLast(at: seq<Level>)
    ensures |Places(at)| == |at|
    ensures at != [] ==> Places(at)[|at| - 1] == Place(at[|at| - 1].inode.node, at[|at| - 1].name)
    ensures at != [] ==> Places(at)[..|at| - 1] == Places(at[..|at| - 1])
    ensures forall l :: Places(at + [l]) == Places(at) + [Place(l.inode.node, l.name)]
  {
  }

  lemma IdsLast(levels: seq<Level>, l: Level)
    ensures Ids(levels + [l]) == Ids(levels) + {l.inode.id}
  {
    forall x | x in Ids(levels)
      ensures x in Ids(levels + [l])
    {
      var i :| 0 <= i < |levels| && levels[i].inode.id == x;
      assert (levels + [l])[i].inode.id == x;
    }
    assert (levels + [l])[|levels|] == l;
  }

  /** Going up releases an inode that the traversal opened, or borrows one less. */
  lemma Pops(w: Start, at: seq<Level>, borrowed: nat, open: set<nat>, nextId: nat)
    requires Walking(w, at, borrowed, open, nextId) && |at| > 1
    ensures var up, id := at[..|at| - 1], at[|at| - 1].inode.id;
            if |at| - 1 > borrowed then id in open && Walking(w, up, borrowed, open - {id}, nextId)
            else borrowed > 0 && Walking(w, up, borrowed - 1, open, nextId)
  {
    var up, last := at[..|at| - 1], at[|at| - 1];
    if |at| - 1 > borrowed {
      var own := up[borrowed + 1..];
      assert at[borrowed + 1..] == own + [last];
      IdsLast(own, last);
      forall i | 0 <= i < |own|
        ensures own[i].inode.id != last.inode.id
      {
        assert at[borrowed + 1..][i] == own[i] && at[borrowed + 1..][|own|] == last;
      }
      assert forall i, j :: 0 <= i < j < |own| ==> own[i] == at[borrowed + 1..][i] && own[j] == at[borrowed + 1..][j];
      assert up[..borrowed + 1] == at[..borrowed + 1];
    } else {
      assert at[borrowed + 1..] == [] && up[borrowed..] == [];
      assert up[..borrowed] == at[..borrowed + 1][..borrowed];
    }
  }

  /** Going down opens one more; a name that is not found changes nothing. */
  lemma Pushes(w: Start, at: seq<Level>, borrowed: nat, open: set<nat>, nextId: nat, name: string)
    requires Walking(w, at, borrowed, open, nextId)
    ensures forall n :: Walking(w, at + [Level(Inode(nextId, n), name)], borrowed, open + {nextId}, nextId + 1)
  {
    forall n: nat
      ensures Walking(w, at + [Level(Inode(nextId, n), name)], borrowed, open + {nextId}, nextId + 1)
    {
      var l := Level(Inode(nextId, n), name);
      var own := at[borrowed + 1..];
      assert (at + [l])[borrowed + 1..] == own + [l];
      IdsLast(own, l);
      assert forall i :: 0 <= i < |own| ==> own[i] == at[borrowed + 1 + i];
      assert (at + [l])[..borrowed + 1] == at[..borrowed + 1];
    }
  }

  lemma IdsFirst(levels: seq<Level>)
    requires levels != []
    ensures Ids(levels) == {levels[0].inode.id} + Ids(levels[1..])
    ensures Distinct(levels) ==> levels[0].inode.id !in Ids(levels[1..])
  {
    assert forall i :: 0 <= i < |levels[1..]| ==> levels[1..][i] == levels[i + 1];
    forall x | x in Ids(levels)
      ensures x in {levels[0].inode.id} + Ids(levels[1..])
    {
      var i :| 0 <= i < |levels| && levels[i].inode.id == x;
      if i > 0 { assert levels[1..][i - 1] == levels[i]; }
    }
  }

  lemma OneReleased(all: seq<Level>, k: nat)
    requires Distinct(all) && k < |all|
    ensures all[k].inode.id in Ids(all) && all[k].inode.id !in Ids(all[k + 1..])
    ensures Ids(all[k..]) == {all[k].inode.id} + Ids(all[k + 1..])
  {
    DistinctTail(all, k);
    IdsFirst(all[k..]);
    assert all[k..][1..] == all[k + 1..];
  }

  lemma NoIds()
    ensures Ids([]) == {}
  {
  }

  lemma DistinctTail(levels: seq<Level>, k: nat)
    requires Distinct(levels) && k <= |levels|
    ensures Distinct(levels[k..])
  {
  }

  lemma NameAdded(at: seq<Level>, i: nat)
    requires i < |at|
    ensures PathOf(Places(at[..i + 1])) ==
            if i == 0 then at[0].name else PathOf(Places(at[..i])) + "/" + at[i].name
  {
    PlacesLast(at[..i + 1]);
    assert at[..i + 1][..i] == at[..i];
  }

  lemma IdsSplit(levels: seq<Level>, k: nat)
    requires k <= |levels|
    ensures Ids(levels) == Ids(levels[..k]) + Ids(levels[k..])
    ensures Distinct(levels) ==> Ids(levels[..k]) !! Ids(levels[k..])
  {
    forall x | x in Ids(levels)
      ensures x in Ids(levels[..k]) + Ids(levels[k..])
    {
      var i :| 0 <= i < |levels| && levels[i].inode.id == x;
      if i < k { assert levels[..k][i].inode.id == x; } else { assert levels[k..][i - k].inode.id == x; }
    }
    assert forall i :: 0 <= i < |levels| - k ==> levels[k..][i] == levels[k + i];
  }

  /** The levels of a traversal can become a working directory once the levels they do not share are released. */
  lemma Adopted(w: Start, now: seq<Level>, borrowed: nat, open: set<nat>, nextId: nat)
    requires Walking(w, now, borrowed, open, nextId)
    requires Distinct(w.cwd) && w.open == Ids(w.cwd)
    requires forall i :: 0 <= i < |w.cwd| ==> w.cwd[i].inode.id < w.nextId
    ensures borrowed < |w.cwd| && Distinct(w.cwd[borrowed + 1..])
    ensures open == Ids(now) + Ids(w.cwd[borrowed + 1..]) && Ids(now) !! Ids(w.cwd[borrowed + 1..])
    ensures Distinct(now) && now[0] == w.cwd[0] && forall i :: 0 <= i < |now| ==> now[i].inode.id < nextId
  {
    hide Ids, Distinct;
    SharedLevels(w.cwd, now, borrowed);
    IdsSplit(w.cwd, borrowed + 1);
    IdsSplit(now, borrowed + 1);
    Together(w.cwd, now, borrowed, w.nextId);
    TailsApart(w.cwd[borrowed + 1..], now[borrowed + 1..], w.nextId);
  }

  lemma SharedLevels(cwd: seq<Level>, now: seq<Level>, borrowed: nat)
    requires borrowed < |cwd| && borrowed < |now| && now[..borrowed + 1] == cwd[..borrowed + 1]
    ensures forall i :: 0 <= i <= borrowed ==> now[i] == cwd[i]
  {
    forall i | 0 <= i <= borrowed ensures now[i] == cwd[i] {
      assert now[..borrowed + 1][i] == cwd[..borrowed + 1][i];
    }
  }

  lemma TailsApart(left: seq<Level>, added: seq<Level>, limit: nat)
    requires forall i :: 0 <= i < |left| ==> left[i].inode.id < limit
    requires forall i :: 0 <= i < |added| ==> limit <= added[i].inode.id
    ensures Ids(added) !! Ids(left)
  {
  }

  lemma Together(cwd: seq<Level>, now: seq<Level>, borrowed: nat, limit: nat)
    requires borrowed < |cwd| && borrowed < |now| && now[..borrowed + 1] == cwd[..borrowed + 1]
    requires Distinct(cwd) && Distinct(now[borrowed + 1..])
    requires forall i :: 0 <= i < |cwd| ==> cwd[i].inode.id < limit
    requires forall i :: borrowed < i < |now| ==> limit <= now[i].inode.id
    ensures Distinct(now) && Distinct(cwd[borrowed + 1..])
  {
    SharedLevels(cwd, now, borrowed);
    forall i, j | 0 <= i < j < |now|
      ensures now[i].inode.id != now[j].inode.id
    {
      if i > borrowed {
        assert now[borrowed + 1..][i - borrowed - 1] == now[i] && now[borrowed + 1..][j - borrowed - 1] == now[j];
      }
    }
  }
}
