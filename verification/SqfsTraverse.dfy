/** Walking a directory tree on disk: a resumable state machine that keeps the path of where it is. */
module SqfsTraverse {
  import opened Types
  import opened SqfsCache
  import opened SqfsMetadata
  import opened SqfsNames
  import opened SqfsWalk
  import D = SqfsDir

  // ----- trees on disk -----

  /** The directory table, and the directories by the numbers that entries name them with. */
  datatype Volume = Volume(disk: nat -> MdBlock, dirs: Table, listings: nat -> D.Listed)

  const S_IFDIR := 0x4000

  /** `sqfs_mode`: the kind of file that a type of inode is; every type from 1 to 7 has an extended form, 7 higher. */
  function Mode(kind: half): half {
    match kind
    case 1 => S_IFDIR case 8 => S_IFDIR
    case 2 => 0x8000 case 9 => 0x8000
    case 3 => 0xA000 case 10 => 0xA000
    case 4 => 0x6000 case 11 => 0x6000
    case 5 => 0x2000 case 12 => 0x2000
    case 6 => 0x1000 case 13 => 0x1000
    case 7 => 0xC000 case 14 => 0xC000
    case _ => 0
  }

  /** `sqfs_dentry_is_dir`. */
  predicate IsDir(kind: half) {
    Mode(kind) / 0x1000 * 0x1000 == S_IFDIR
  }

  /** It is a plain or an extended directory. */
  lemma IsDirIff(kind: half)
    ensures IsDir(kind) <==> kind == 1 || kind == 8
    ensures 1 <= kind <= 7 ==> Mode(kind) == Mode(kind + 7)
  {
  }

  /** These entries are, with what lies below them, this list of nodes. */
  ghost predicate Shows(v: Volume, entries: seq<D.Entry>, kids: seq<Node>)
    decreases kids, 0
  {
    |entries| == |kids| && forall i :: 0 <= i < |kids| ==> ShowsOne(v, entries[i], kids[i])
  }

  ghost predicate ShowsOne(v: Volume, e: D.Entry, node: Node)
    decreases node, 0
  {
    && e.name == node.name && IsDir(e.kind) == node.Dir?
    && (node.Dir? ==> ShowsBelow(v, v.listings(e.inode), node.kids))
  }

  ghost predicate ShowsBelow(v: Volume, l: D.Listed, kids: seq<Node>)
    decreases kids, 1
  {
    D.GoodListed(v.dirs, l) && Shows(v, D.Entries(l.runs), kids)
  }

  lemma ShowsFirst(v: Volume, entries: seq<D.Entry>, kids: seq<Node>)
    requires Shows(v, entries, kids)
    ensures entries == [] <==> kids == []
    ensures entries != [] ==> ShowsOne(v, entries[0], kids[0]) && Shows(v, entries[1..], kids[1..])
  {
  }

  // ----- the state machine -----

  datatype State = GetEntry | NameAdd | NameRemove | Descend | Ascend | Finished | Error

  /** `sqfs_traverse_level`: an open directory, and the length of its name in the path. */
  datatype Level = Level(dir: D.Dir, nameSize: nat)

  /** What a directory has still to read. */
  datatype Ahead = Ahead(base: nat, items: seq<D.Item>, runs: seq<D.Run>)

  function Rank(state: State): nat {
    match state
    case Descend => 5
    case NameRemove => 5
    case GetEntry => 4
    case NameAdd => 3
    case Ascend => 2
    case Finished => 1
    case Error => 0
  }

  /** An open directory on disk reads as the open directory of the walk. */
  ghost predicate Reads(v: Volume, l: Level, a: Ahead, o: Opened)
    reads l.dir
  {
    && l.nameSize == o.nameSize
    && l.dir.Before(v.dirs, a.base, a.items, a.runs) && Shows(v, l.dir.Left(a.items, a.runs), o.left)
  }

  function Opens(stack: seq<Level>): set<object> {
    set l | l in stack :: l.dir
  }

  /** So do all open directories, no two of them being the same object. */
  ghost predicate Stands(v: Volume, stack: seq<Level>, ahead: seq<Ahead>, levels: seq<Opened>)
    reads Opens(stack)
  {
    && |stack| == |levels| == |ahead|
    && (forall k :: 0 <= k < |stack| ==> stack[k].dir in Opens(stack) && Reads(v, stack[k], ahead[k], levels[k]))
    && (forall j, k :: 0 <= j < k < |stack| ==> stack[j].dir != stack[k].dir)
  }

  lemma StandsMeans(v: Volume, stack: seq<Level>, ahead: seq<Ahead>, levels: seq<Opened>)
    requires Stands(v, stack, ahead, levels)
    ensures |stack| == |levels| == |ahead|
  {
  }

  /** One more directory, or one less. */
  lemma StandsMore(v: Volume, stack: seq<Level>, ahead: seq<Ahead>, levels: seq<Opened>, l: Level, a: Ahead, o: Opened)
    requires Stands(v, stack, ahead, levels) && Reads(v, l, a, o) && l.dir !in Opens(stack)
    ensures Stands(v, stack + [l], ahead + [a], levels + [o]) && Opens(stack + [l]) == Opens(stack) + {l.dir}
  {
    hide Reads;
    assert l in stack + [l];
  }

  lemma StandsLess(v: Volume, stack: seq<Level>, ahead: seq<Ahead>, levels: seq<Opened>)
    requires Stands(v, stack, ahead, levels) && stack != []
    ensures var last := |stack| - 1;
            && Stands(v, stack[..last], ahead[..last], levels[..last]) && Opens(stack[..last]) <= Opens(stack)
            && stack[last].dir !in Opens(stack[..last]) && Reads(v, stack[last], ahead[last], levels[last])
            && stack[last].nameSize == levels[last].nameSize
  {
    hide Shows;
    var last := |stack| - 1;
    forall k | 0 <= k < last ensures stack[k].dir in Opens(stack[..last]) {
      assert stack[..last][k] in stack[..last];
    }
  }

  /** An entry was read from the top of `before`, unless there is none left. */
  ghost predicate Took(v: Volume, next: Option<D.Entry>, before: seq<Opened>, after: seq<Opened>) {
    && before != []
    && var last := |before| - 1;
       var top := before[last];
       if next.None? then top.left == [] && after == before
       else
         && top.left != [] && ShowsOne(v, next.value, top.left[0])
         && after == before[last := Opened(top.left[1..], top.nameSize)]
  }

  lemma NotCaches(md: Cache<MdBlock>, stack: seq<Level>)
    ensures md !in Opens(stack) && md.slots !in Opens(stack)
  {
  }

  class Traverse {
    const v: Volume
    const md: Cache<MdBlock>
    var state: State
    var stack: seq<Level>
    var path: Name
    var lastSize: nat
    var entry: D.Entry
    var dirEnd: bool
    ghost var names: seq<Name>
    ghost var node: Node
    ghost var levels: seq<Opened>
    ghost var ahead: seq<Ahead>

    ghost function Dirs(): set<object>
      reads this
    {
      Opens(stack)
    }

    /** What has been read of the disk is what the ghost fields say. */
    ghost predicate Backed()
      reads this, md, md.slots, Dirs()
    {
      && md.Valid() && Coherent(v.disk, md.View()) && OnDisk(v.disk, v.dirs)
      && this !in Dirs() && Stands(v, stack, ahead, levels) && ShowsOne(v, entry, node)
    }

    /** Between two calls. */
    ghost predicate Resting()
      reads this
    {
      && Sized(levels, names)
      && match state
         case NameRemove => Shortened(path, lastSize) == Prefix(names)
         case Descend => levels != [] && node.Dir? && lastSize == |node.name| && path == Prefix(names) + node.name
         case Finished => levels == [] && path == []
         case Error => levels == [] && path == []
         case _ => false
    }

    ghost predicate Valid()
      reads this, md, md.slots, Dirs()
    {
      Backed() && Resting()
    }

    /** The reports still to come, the next one being number `n`. */
    ghost function Pending(n: nat, prune: nat -> bool): seq<Event>
      reads this
    {
      match state
      case Descend =>
        if node.File? then []
        else
          var trail := names + [node.name];
          var inner := Walk(trail, node.kids, n, prune);
          inner + [End(trail)] + Rest(levels, names, n + |inner| + 1, prune)
      case NameRemove => Rest(levels, names, n, prune)
      case GetEntry => Rest(levels, names, n, prune)
      case _ => []
    }

    /** `sqfs_traverse_open_inode` on a directory whose tree is `root`. */
    constructor (v: Volume, md: Cache<MdBlock>, l: D.Listed, ghost root: seq<Node>)
      requires md.Valid() && Coherent(v.disk, md.View()) && OnDisk(v.disk, v.dirs) && ShowsBelow(v, l, root)
      ensures this.v == v && this.md == md && fresh(Dirs())
      ensures Valid() && state == NameRemove && stack != []
      ensures forall prune :: Pending(0, prune) == Walk([], root, 0, prune)
    {
      hide Reads, ShowsBelow, Coherent, OnDisk, Walk;
      ghost var a, o;
      var level;
      level, a, o := OpenLevel(v, l, 0, root);
      this.v, this.md := v, md;
      stack := [level];
      path := [];
      lastSize := 0;
      state := NameRemove;
      entry := D.Entry([], 0, 0, 0);
      dirEnd := false;
      names := [];
      node := File([]);
      levels := [o];
      ahead := [a];
      new;
      assert stack[0] in stack;
    }

    /** `sqfs_traverse_path_remove`. */
    method PathRemove(size: nat)
      modifies this`path
      ensures path == Shortened(old(path), size)
    {
      if |path| + 1 > size {
        path := path[..|path| - size];
      } else {
        path := [];
      }
    }

    /** `sqfs_traverse_prune`. */
    method Prune()
      requires Valid()
      modifies this`state
      ensures Valid() && state == NameRemove
      ensures forall n, prune :: Pending(n, prune) == Rest(levels, names, n, prune)
    {
      hide Rest, Stands, ShowsOne, Coherent, OnDisk;
      if state == Descend {
        assert path[..|path| - lastSize] == Prefix(names);
      }
      state := NameRemove;
    }

    /** Inside a call, with the reports `pend` still to come. */
    ghost predicate During(n: nat, prune: nat -> bool, pend: seq<Event>)
      reads this
    {
      && Sized(levels, names)
      && match state
         case GetEntry => path == Prefix(names) && Rest(levels, names, n, prune) == pend
         case NameAdd =>
           && levels != [] && path == Prefix(names)
           && pend == Below(names, node, n, prune) + Rest(levels, names, n + |Below(names, node, n, prune)|, prune)
         case Ascend =>
           && levels != [] && levels[|levels| - 1].left == [] && path == Prefix(names)
           && Rest(levels, names, n, prune) == pend
         case _ => Resting() && Pending(n, prune) == pend
    }

    /** Reading an entry from the directory on top of the stack. */
    method ReadTop() returns (next: Option<D.Entry>)
      requires Backed() && stack != []
      modifies this`levels, this`ahead, md, md.slots, stack[|stack| - 1].dir
      ensures Backed() && Took(v, next, old(levels), levels)
    {
      hide Reads, Coherent, OnDisk, ShowsOne, Stands;
      StandsMeans(v, stack, ahead, levels);
      StandsLess(v, stack, ahead, levels);
      NotCaches(md, stack);
      var last := |stack| - 1;
      ghost var a, o;
      next, a, o := ReadLevel(v, md, stack[last], ahead[last], levels[last]);
      StandsMore(v, stack[..last], ahead[..last], levels[..last], stack[last], a, o);
      assert stack == stack[..last] + [stack[last]];
      ahead, levels := ahead[last := a], levels[last := o];
      assert ahead == ahead[..last] + [a] && levels == levels[..last] + [o];
    }

    /** `sqfs_dir_next` on the top directory, and the state that follows. */
    method GetNext(ghost n: nat, ghost prune: nat -> bool, ghost pend: seq<Event>)
      requires Backed() && state == GetEntry && stack != [] && During(n, prune, pend)
      modifies this, md, md.slots, stack[|stack| - 1].dir
      ensures Backed() && Dirs() == old(Dirs()) && (state == NameAdd || state == Ascend)
      ensures During(n, prune, pend)
    {
      hide Walk, Below, Prefix, Rest, Stands, Coherent, OnDisk, ShowsOne;
      StandsMeans(v, stack, ahead, levels);
      var next := ReadTop();
      if next.Some? {
        RestTakes(old(levels), names, n, prune);
        entry := next.value;
        node := old(levels)[|levels| - 1].left[0];
        state := NameAdd;
      } else {
        state := Ascend;
      }
    }

    /** The state that reports an entry. */
    method AddName(ghost n: nat, ghost prune: nat -> bool, ghost pend: seq<Event>)
      requires Backed() && state == NameAdd && During(n, prune, pend)
      modifies this`lastSize, this`path, this`state, this`dirEnd
      ensures Valid() && stack != [] && state != Error
      ensures pend != [] && IsReport(pend[0]) && pend[1..] == Later(n, prune)
    {
      hide Walk, Rest, Prefix, Join, Sized, Below, Stands, Coherent, OnDisk, ShowsBelow;
      StandsMeans(v, stack, ahead, levels);
      EntryReport(names, node, n, prune);
      JoinMore(names, node.name);
      lastSize := |entry.name|;
      path := path + entry.name;
      state := if IsDir(entry.kind) then Descend else NameRemove;
      dirEnd := false;
    }

    /** `sqfs_traverse_descend_inode` below the root. */
    method DescendInto(ghost n: nat, ghost prune: nat -> bool, ghost pend: seq<Event>)
      requires Backed() && state == Descend && During(n, prune, pend)
      modifies this
      ensures Backed() && fresh(Dirs() - old(Dirs()))
      ensures state == GetEntry && During(n, prune, pend) && stack != []
    {
      hide Walk, Rest, Prefix, Below, Sized, Join, Coherent, OnDisk, Stands, ShowsOne;
      SizedMore(levels, names, node);
      RestEnters(levels, names, node, n, prune);
      JoinMore(names, node.name);
      Push();
      path := path + SEPARATOR;
      names := names + [node.name];
      state := GetEntry;
    }

    /** Opening the directory that was reported. */
    method Push()
      requires Backed() && node.Dir?
      modifies this`stack, this`levels, this`ahead
      ensures Backed() && stack != [] && fresh(Dirs() - old(Dirs()))
      ensures levels == old(levels) + [Opened(node.kids, |node.name|)]
    {
      hide Reads, Coherent, OnDisk, Stands, ShowsBelow;
      var l := v.listings(entry.inode);
      ghost var a, o;
      var level;
      level, a, o := OpenLevel(v, l, |entry.name|, node.kids);
      StandsMore(v, stack, ahead, levels, level, a, o);
      stack := stack + [level];
      ahead := ahead + [a];
      levels := levels + [o];
    }

    /** `sqfs_traverse_ascend`. */
    method AscendFrom(ghost n: nat, ghost prune: nat -> bool, ghost pend: seq<Event>)
      requires Backed() && state == Ascend && During(n, prune, pend)
      modifies this`path, this`lastSize, this`stack, this`names, this`levels, this`ahead
      ensures Backed() && Dirs() <= old(Dirs()) && Sized(levels, names) && |levels| == |old(levels)| - 1
      ensures levels == [] ==> pend == [] && path == []
      ensures levels != [] ==>
                && old(names) != [] && pend == [End(old(names))] + Rest(levels, names, n + 1, prune)
                && path == Join(old(names)) && Shortened(path, lastSize) == Prefix(names)
    {
      hide Walk, Rest, Prefix, Join, Stands, Coherent, OnDisk, ShowsOne, During;
      StandsMeans(v, stack, ahead, levels);
      Leaving(n, prune, pend);
      RestEnds(levels, names, n, prune);
      PrefixParts(names);
      PathRemove(1);
      lastSize := Pop();
      names := if names == [] then [] else names[..|names| - 1];
    }

    lemma Leaving(n: nat, prune: nat -> bool, pend: seq<Event>)
      requires state == Ascend && During(n, prune, pend)
      ensures Sized(levels, names) && levels != [] && levels[|levels| - 1].left == []
      ensures path == Prefix(names) && Rest(levels, names, n, prune) == pend
    {
      hide Rest, Prefix, Sized;
    }

    /** Closing the top directory. */
    method Pop() returns (size: nat)
      requires Backed() && stack != []
      modifies this`stack, this`levels, this`ahead
      ensures Backed() && Dirs() <= old(Dirs())
      ensures levels == old(levels[..|levels| - 1]) && size == old(levels[|levels| - 1].nameSize)
    {
      hide Coherent, OnDisk, ShowsOne, Stands, Opens;
      StandsMeans(v, stack, ahead, levels);
      StandsLess(v, stack, ahead, levels);
      var last := |stack| - 1;
      size := stack[last].nameSize;
      stack := stack[..last];
      levels := levels[..last];
      ahead := ahead[..last];
    }

    /** The state that leaves a directory: a report, or the end of the walk. */
    method LeaveDirectory(ghost n: nat, ghost prune: nat -> bool, ghost pend: seq<Event>) returns (found: bool)
      requires Backed() && state == Ascend && During(n, prune, pend)
      modifies this
      ensures Backed() && Dirs() <= old(Dirs())
      ensures found ==> Valid() && stack != [] && state != Error
      ensures found ==> pend != [] && IsReport(pend[0]) && pend[1..] == Later(n, prune)
      ensures !found ==> state == Finished && During(n, prune, pend)
    {
      hide Walk, Rest, Prefix, Join, Sized, Below, Stands, Coherent, OnDisk, ShowsOne;
      AscendFrom(n, prune, pend);
      StandsMeans(v, stack, ahead, levels);
      found := |stack| > 0;
      if found {
        dirEnd := true;
        state := NameRemove;
      } else {
        state := Finished;
      }
    }

    /** The state that takes a name off the path. */
    method RemoveName(ghost n: nat, ghost prune: nat -> bool, ghost pend: seq<Event>)
      requires Backed() && state == NameRemove && During(n, prune, pend)
      modifies this`path, this`state
      ensures Backed() && state == GetEntry && During(n, prune, pend)
    {
      hide Walk, Rest, Prefix, Join, Sized, Below, Stands, ShowsOne, Coherent, OnDisk;
      PathRemove(lastSize);
      state := GetEntry;
    }

    lemma Begin(n: nat, prune: nat -> bool)
      requires Valid()
      ensures During(n, prune, Pending(n, prune))
    {
      hide Walk, Rest, Prefix, Join, Sized, Below, Backed;
    }

    lemma Over(n: nat, prune: nat -> bool, pend: seq<Event>)
      requires During(n, prune, pend)
      ensures state == Finished || state == Error ==> Resting() && pend == []
      ensures state == GetEntry && levels == [] ==> pend == [] && path == [] && Sized(levels, names)
    {
      hide Walk, Prefix, Join, Below, Backed;
      NothingOpen(names, n, prune);
    }

    /** The step that finds no open directory. */
    method Fail(ghost n: nat, ghost prune: nat -> bool, ghost pend: seq<Event>)
      requires Backed() && state == GetEntry && stack == [] && During(n, prune, pend)
      modifies this`state
      ensures Valid() && pend == [] && state == Error
    {
      hide Walk, Rest, Prefix, Join, Sized, Below, Stands, Coherent, OnDisk, ShowsOne;
      StandsMeans(v, stack, ahead, levels);
      Over(n, prune, pend);
      state := Error;
    }

    /**
     `sqfs_traverse_next`: reports the first of the reports to come, with the path of its names, and leaves the
     others, whether or not prune is called before the next one; it fails only when nothing is open.
     */
    method Next(ghost n: nat, ghost prune: nat -> bool) returns (found: bool, failed: bool)
      requires Valid()
      modifies this, md, md.slots, Dirs()
      ensures Valid() && fresh(Dirs() - old(Dirs()))
      ensures found == (old(Pending(n, prune)) != [])
      ensures found ==> IsReport(old(Pending(n, prune))[0]) && old(Pending(n, prune))[1..] == Later(n, prune)
      ensures failed == old(NoneOpen())
      ensures if found then stack != [] && state != Error else state == if failed then Error else Finished
    {
      hide Walk, Rest, Prefix, Join, Sized, Below, During, Pending, IsReport, Later, Backed, Resting;
      ghost var pend := Pending(n, prune);
      found, failed := false, false;
      Begin(n, prune);
      while true
        invariant Backed() && fresh(Dirs() - old(Dirs()))
        invariant During(n, prune, pend) && NoneOpen() == old(NoneOpen())
        decreases Rank(state)
      {
        match state {
          case GetEntry =>
            if stack == [] {
              Fail(n, prune, pend);
              return false, true;
            }
            GetNext(n, prune, pend);
          case NameAdd =>
            AddName(n, prune, pend);
            return true, false;
          case NameRemove =>
            RemoveName(n, prune, pend);
          case Descend =>
            DescendInto(n, prune, pend);
          case Ascend =>
            found := LeaveDirectory(n, prune, pend);
            if found {
              return true, false;
            }
          case Finished =>
            Over(n, prune, pend);
            return false, false;
          case Error =>
            Over(n, prune, pend);
            return false, true;
        }
      }
    }

    /** An entry is to be read although no directory is open, or this has happened before. */
    ghost predicate NoneOpen()
      reads this
    {
      state == Error || ((state == NameRemove || state == GetEntry) && stack == [])
    }

    /** The fields a caller reads say this report. */
    ghost predicate IsReport(e: Event)
      reads this
    {
      && dirEnd == e.End? && path == Join(e.names)
      && (e.Found? ==> e.names != [] && entry.name == e.names[|e.names| - 1] && IsDir(entry.kind) == e.dir)
    }

    /** The reports behind number `n`, when prune is called after it or not as `prune` says. */
    ghost function Later(n: nat, prune: nat -> bool): seq<Event>
      reads this
    {
      if prune(n) then Rest(levels, names, n + 1, prune) else Pending(n + 1, prune)
    }
  }

  /** `sqfs_dir_next` on one level. */
  method ReadLevel(v: Volume, md: Cache<MdBlock>, l: Level, ghost a0: Ahead, ghost o0: Opened)
    returns (next: Option<D.Entry>, ghost a: Ahead, ghost o: Opened)
    requires md.Valid() && Coherent(v.disk, md.View()) && OnDisk(v.disk, v.dirs) && Reads(v, l, a0, o0)
    modifies md, md.slots, l.dir
    ensures md.Valid() && Coherent(v.disk, md.View()) && Reads(v, l, a, o)
    ensures if next.None? then o0.left == [] && o == o0
            else o0.left != [] && ShowsOne(v, next.value, o0.left[0]) && o == Opened(o0.left[1..], o0.nameSize)
  {
    hide Shows, Coherent, OnDisk, ShowsOne, D.Resolved, D.Entries;
    ghost var left := l.dir.Left(a0.items, a0.runs);
    ShowsFirst(v, left, o0.left);
    var from, to;
    ghost var items, runs;
    next, from, to, items, runs := l.dir.Next(v.disk, md, v.dirs, a0.base, a0.items, a0.runs);
    a, o := Ahead(a0.base, items, runs), o0;
    if next.Some? {
      o := Opened(o0.left[1..], o0.nameSize);
      assert left[1..] == l.dir.Left(items, runs);
    } else {
      assert left == l.dir.Left(items, runs);
    }
  }

  /** `sqfs_dir_open` for a new level. */
  method OpenLevel(v: Volume, l: D.Listed, size: nat, ghost kids: seq<Node>)
    returns (level: Level, ghost a: Ahead, ghost o: Opened)
    requires ShowsBelow(v, l, kids)
    ensures fresh(level.dir) && Reads(v, level, a, o) && o == Opened(kids, size)
  {
    hide D.GoodListed, Shows, D.Entries;
    var dir := D.Open(v.dirs, l);
    level, a, o := Level(dir, size), Ahead(l.base, [], l.runs), Opened(kids, size);
  }

  // ----- a whole walk -----

  lemma SightsNone()
    ensures Sights([]) == []
  {
  }

  /**
   Calling next until it finds nothing, and prune after the reports `prune` says: it ends, without an error, and has
   shown the depth-first walk of the tree on disk, each path being the names from the root joined by "/".
   */
  method WalkAll(v: Volume, md: Cache<MdBlock>, l: D.Listed, ghost root: seq<Node>, prune: nat -> bool)
    returns (seen: seq<Sight>, failed: bool)
    requires md.Valid() && Coherent(v.disk, md.View()) && OnDisk(v.disk, v.dirs) && ShowsBelow(v, l, root)
    modifies md, md.slots
    ensures seen == Sights(Walk([], root, 0, prune)) && !failed
    ensures md.Valid() && Coherent(v.disk, md.View())
  {
    hide Walk, Rest, Sized, Prefix, Join, Sights, Stands, ShowsOne, ShowsBelow, Coherent, OnDisk;
    var trv := new Traverse(v, md, l, root);
    seen := [];
    ghost var events := [];
    ghost var left := trv.Pending(0, prune);
    SightsNone();
    var found := true;
    failed := false;
    while found
      invariant trv.Valid() && fresh(trv.Dirs()) && left == trv.Pending(|seen|, prune) && |seen| == |events|
      invariant events + left == Walk([], root, 0, prune) && seen == Sights(events)
      invariant !found ==> left == []
      invariant !failed && (found ==> trv.stack != [] && trv.state != Error)
      decreases found, |left|
    {
      found, failed := trv.Next(|seen|, prune);
      if found {
        SightsMore(events, left[0]);
        assert events + left == (events + [left[0]]) + left[1..];
        var n := |seen|;
        seen := seen + [Sight(trv.path, trv.dirEnd)];
        events := events + [left[0]];
        left := left[1..];
        if prune(n) {
          trv.Prune();
        }
      }
    }
    assert events + [] == events;
  }
}
