/** What walking a directory tree reports: the depth-first walk, with the path of every entry. */
module SqfsWalk {
  import opened SqfsNames

  const SEPARATOR: Name := ['/' as int]

  /** A directory entry with what lies below it. */
  datatype Node = File(name: Name) | Dir(name: Name, kids: seq<Node>)

  /** What one call reports: an entry, or the end of a directory, with the names that lead to it. */
  datatype Event = Found(names: seq<Name>, dir: bool) | End(names: seq<Name>)

  /** Names joined by "/". */
  function Join(names: seq<Name>): Name {
    if names == [] then [] else Prefix(names[..|names| - 1]) + names[|names| - 1]
  }

  /** The same with a "/" at the end of it, unless there is no name. */
  function Prefix(names: seq<Name>): Name {
    if names == [] then [] else Prefix(names[..|names| - 1]) + names[|names| - 1] + SEPARATOR
  }

  // ----- the walk -----

  /**
   The walk of a list of entries below `names`, in depth-first order, when the report with number `k` is followed by
   a call of prune exactly if `prune(k)`; the next report has number `n`.
   */
  function Walk(names: seq<Name>, kids: seq<Node>, n: nat, prune: nat -> bool): seq<Event>
    decreases kids
  {
    if kids == [] then []
    else
      var head := Below(names, kids[0], n, prune);
      head + Walk(names, kids[1..], n + |head|, prune)
  }

  /** The part of the walk that belongs to one entry. */
  function Below(names: seq<Name>, node: Node, n: nat, prune: nat -> bool): seq<Event>
    decreases node
  {
    var trail := names + [node.name];
    if node.File? || prune(n) then [Found(trail, node.Dir?)]
    else [Found(trail, true)] + Walk(trail, node.kids, n + 1, prune) + [End(trail)]
  }

  /** All entries, each before what lies below it. */
  function Preorder(names: seq<Name>, kids: seq<Node>): seq<seq<Name>>
    decreases kids
  {
    if kids == [] then []
    else
      var trail := names + [kids[0].name];
      [trail] + (if kids[0].Dir? then Preorder(trail, kids[0].kids) else []) + Preorder(names, kids[1..])
  }

  /** All directories, each behind what lies below it. */
  function Postorder(names: seq<Name>, kids: seq<Node>): seq<seq<Name>>
    decreases kids
  {
    if kids == [] then []
    else
      var trail := names + [kids[0].name];
      (if kids[0].Dir? then Postorder(trail, kids[0].kids) + [trail] else []) + Postorder(names, kids[1..])
  }

  function Entries(events: seq<Event>): seq<seq<Name>> {
    if events == [] then []
    else (if events[0].Found? then [events[0].names] else []) + Entries(events[1..])
  }

  function Ends(events: seq<Event>): seq<seq<Name>> {
    if events == [] then []
    else (if events[0].End? then [events[0].names] else []) + Ends(events[1..])
  }

  lemma {:induction false} EntriesJoin(a: seq<Event>, b: seq<Event>)
    ensures Entries(a + b) == Entries(a) + Entries(b)
    decreases |a|
  {
    if a == [] {
      assert a + b == b;
    } else {
      assert (a + b)[0] == a[0] && (a + b)[1..] == a[1..] + b;
      EntriesJoin(a[1..], b);
    }
  }

  lemma {:induction false} EndsJoin(a: seq<Event>, b: seq<Event>)
    ensures Ends(a + b) == Ends(a) + Ends(b)
    decreases |a|
  {
    if a == [] {
      assert a + b == b;
    } else {
      assert (a + b)[0] == a[0] && (a + b)[1..] == a[1..] + b;
      EndsJoin(a[1..], b);
    }
  }

  lemma EntriesAround(trail: seq<Name>, inner: seq<Event>)
    ensures Entries([Found(trail, true)] + inner + [End(trail)]) == [trail] + Entries(inner)
  {
    EntriesJoin([Found(trail, true)] + inner, [End(trail)]);
    EntriesJoin([Found(trail, true)], inner);
  }

  lemma EndsAround(trail: seq<Name>, inner: seq<Event>)
    ensures Ends([Found(trail, true)] + inner + [End(trail)]) == Ends(inner) + [trail]
  {
    EndsJoin([Found(trail, true)] + inner, [End(trail)]);
    EndsJoin([Found(trail, true)], inner);
  }

  lemma OneFound(trail: seq<Name>, dir: bool)
    ensures Entries([Found(trail, dir)]) == [trail] && Ends([Found(trail, dir)]) == []
  {
  }

  lemma NoEvents()
    ensures Entries([]) == [] && Ends([]) == []
  {
  }

  // ----- walks with prune -----

  /** How many reports a walk without prune gives for an entry, and for a list of them. */
  function Reports(node: Node): nat
    decreases node, 0
  {
    if node.File? then 1 else 2 + AllReports(node.kids)
  }

  function AllReports(kids: seq<Node>): nat
    decreases kids, 1
  {
    if kids == [] then 0 else Reports(kids[0]) + AllReports(kids[1..])
  }

  /**
   The tree without what prune leaves out: a directory whose report is followed by prune becomes a plain entry. The
   first entry has report number `n`, and the next one a number that is higher by the reports of what is kept of it.
   */
  function Cut(kids: seq<Node>, n: nat, prune: nat -> bool): seq<Node>
    decreases kids, 1
  {
    if kids == [] then []
    else
      var head := CutOne(kids[0], n, prune);
      [head] + Cut(kids[1..], n + Reports(head), prune)
  }

  function CutOne(node: Node, n: nat, prune: nat -> bool): Node
    decreases node, 0
  {
    if node.File? || prune(n) then File(node.name) else Dir(node.name, Cut(node.kids, n + 1, prune))
  }

  lemma {:induction false} WalkLength(names: seq<Name>, kids: seq<Node>, n: nat, prune: nat -> bool)
    ensures |Walk(names, kids, n, prune)| == AllReports(Cut(kids, n, prune))
    decreases kids, 1
  {
    if kids != [] {
      hide Below;
      BelowLength(names, kids[0], n, prune);
      var head := CutOne(kids[0], n, prune);
      WalkLength(names, kids[1..], n + Reports(head), prune);
      assert Cut(kids, n, prune)[1..] == Cut(kids[1..], n + Reports(head), prune);
    }
  }

  lemma {:induction false} BelowLength(names: seq<Name>, node: Node, n: nat, prune: nat -> bool)
    ensures |Below(names, node, n, prune)| == Reports(CutOne(node, n, prune))
    decreases node, 0
  {
    if node.Dir? && !prune(n) {
      hide Walk, Cut, AllReports;
      WalkLength(names + [node.name], node.kids, n + 1, prune);
    }
  }

  /** Prune leaves out what lies below the entries it is called for, their ends included, and nothing else. */
  lemma {:induction false} PrunedWalk(names: seq<Name>, kids: seq<Node>, n: nat, prune: nat -> bool)
    ensures Entries(Walk(names, kids, n, prune)) == Preorder(names, Cut(kids, n, prune))
    ensures Ends(Walk(names, kids, n, prune)) == Postorder(names, Cut(kids, n, prune))
    decreases kids, 1
  {
    hide Entries, Ends, Below, Reports;
    NoEvents();
    if kids != [] {
      var head, one := Below(names, kids[0], n, prune), CutOne(kids[0], n, prune);
      EntriesJoin(head, Walk(names, kids[1..], n + |head|, prune));
      EndsJoin(head, Walk(names, kids[1..], n + |head|, prune));
      BelowLength(names, kids[0], n, prune);
      PrunedBelow(names, kids[0], n, prune);
      PrunedWalk(names, kids[1..], n + |head|, prune);
      assert Cut(kids, n, prune)[1..] == Cut(kids[1..], n + |head|, prune);
    }
  }

  lemma {:induction false} PrunedBelow(names: seq<Name>, node: Node, n: nat, prune: nat -> bool)
    ensures var trail, one := names + [node.name], CutOne(node, n, prune);
            && one.name == node.name
            && Entries(Below(names, node, n, prune)) == [trail] + (if one.Dir? then Preorder(trail, one.kids) else [])
            && Ends(Below(names, node, n, prune)) == if one.Dir? then Postorder(trail, one.kids) + [trail] else []
    decreases node, 0
  {
    hide Entries, Ends, Walk, Preorder, Postorder, Cut;
    var trail := names + [node.name];
    OneFound(trail, node.Dir?);
    if node.Dir? && !prune(n) {
      PrunedWalk(trail, node.kids, n + 1, prune);
      EntriesAround(trail, Walk(trail, node.kids, n + 1, prune));
      EndsAround(trail, Walk(trail, node.kids, n + 1, prune));
    }
  }

  lemma {:induction false} NothingCut(kids: seq<Node>, n: nat, prune: nat -> bool)
    requires forall k :: !prune(k)
    ensures Cut(kids, n, prune) == kids
    decreases kids
  {
    if kids != [] {
      if kids[0].Dir? { NothingCut(kids[0].kids, n + 1, prune); }
      NothingCut(kids[1..], n + Reports(CutOne(kids[0], n, prune)), prune);
    }
  }

  /** Without pruning every entry is reported once, in preorder, and every directory ends once, in postorder. */
  lemma WalkIsComplete(names: seq<Name>, kids: seq<Node>, n: nat, prune: nat -> bool)
    requires forall k :: !prune(k)
    ensures Entries(Walk(names, kids, n, prune)) == Preorder(names, kids)
    ensures Ends(Walk(names, kids, n, prune)) == Postorder(names, kids)
  {
    PrunedWalk(names, kids, n, prune);
    NothingCut(kids, n, prune);
  }

  // ----- what is left of a walk -----

  /** An open directory as a list: the entries not read yet, and the length of its name in the path. */
  datatype Opened = Opened(left: seq<Node>, nameSize: nat)

  /** What is still to be reported when the next entry is read from the top directory, whose names are `names`. */
  function Rest(stack: seq<Opened>, names: seq<Name>, n: nat, prune: nat -> bool): seq<Event>
    decreases |stack|
  {
    if stack == [] then []
    else
      var here := Walk(names, stack[|stack| - 1].left, n, prune);
      if |stack| == 1 || names == [] then here
      else here + [End(names)] + Rest(stack[..|stack| - 1], names[..|names| - 1], n + |here| + 1, prune)
  }

  /** Each open directory below the first knows the length of its name. */
  predicate Sized(stack: seq<Opened>, names: seq<Name>) {
    && |names| == (if stack == [] then 0 else |stack| - 1)
    && (stack != [] ==> stack[0].nameSize == 0)
    && forall k :: 0 <= k < |names| ==> stack[k + 1].nameSize == |names[k]|
  }

  lemma SizedMore(stack: seq<Opened>, names: seq<Name>, node: Node)
    requires Sized(stack, names) && stack != [] && node.Dir?
    ensures Sized(stack + [Opened(node.kids, |node.name|)], names + [node.name])
  {
  }

  /** Removing the "/" and then the name of the top directory leaves the path of the one it lies in. */
  lemma PrefixParts(names: seq<Name>)
    ensures names != [] ==> Prefix(names) == Join(names) + SEPARATOR
    ensures names != [] ==> Join(names) == Prefix(names[..|names| - 1]) + names[|names| - 1]
    ensures names == [] ==> Prefix(names) == []
  {
  }

  lemma JoinMore(names: seq<Name>, name: Name)
    ensures Join(names + [name]) == Prefix(names) + name && Prefix(names + [name]) == Prefix(names) + name + SEPARATOR
  {
    assert (names + [name])[..|names|] == names;
  }

  /** Reading an entry from the top directory. */
  lemma RestTakes(stack: seq<Opened>, names: seq<Name>, n: nat, prune: nat -> bool)
    requires stack != [] && stack[|stack| - 1].left != []
    ensures var top := stack[|stack| - 1];
            var head := Below(names, top.left[0], n, prune);
            Rest(stack, names, n, prune) ==
            head + Rest(stack[|stack| - 1 := Opened(top.left[1..], top.nameSize)], names, n + |head|, prune)
  {
    hide Below, Walk;
    var top := stack[|stack| - 1];
    var stack' := stack[|stack| - 1 := Opened(top.left[1..], top.nameSize)];
    assert stack'[..|stack| - 1] == stack[..|stack| - 1];
    WalkTakes(names, top.left, n, prune);
  }

  lemma WalkTakes(names: seq<Name>, kids: seq<Node>, n: nat, prune: nat -> bool)
    requires kids != []
    ensures var head := Below(names, kids[0], n, prune);
            Walk(names, kids, n, prune) == head + Walk(names, kids[1..], n + |head|, prune)
  {
    hide Below;
  }

  /** Leaving the top directory. */
  lemma RestEnds(stack: seq<Opened>, names: seq<Name>, n: nat, prune: nat -> bool)
    requires stack != [] && stack[|stack| - 1].left == [] && Sized(stack, names)
    ensures |stack| == 1 ==> Rest(stack, names, n, prune) == []
    ensures |stack| > 1 ==> Rest(stack, names, n, prune) ==
                            [End(names)] + Rest(stack[..|stack| - 1], names[..|names| - 1], n + 1, prune)
  {
    hide Walk;
    NothingLeft(names, n, prune);
  }

  lemma NothingLeft(names: seq<Name>, n: nat, prune: nat -> bool)
    ensures Walk(names, [], n, prune) == []
  {
  }

  /** Entering a directory. */
  lemma RestEnters(stack: seq<Opened>, names: seq<Name>, node: Node, n: nat, prune: nat -> bool)
    requires stack != [] && node.Dir?
    ensures var trail := names + [node.name]; var inner := Walk(trail, node.kids, n, prune);
            Rest(stack + [Opened(node.kids, |node.name|)], trail, n, prune) ==
            inner + [End(trail)] + Rest(stack, names, n + |inner| + 1, prune)
  {
    hide Walk;
    assert (stack + [Opened(node.kids, |node.name|)])[..|stack|] == stack;
    assert (names + [node.name])[..|names|] == names;
  }

  /** A path without its last `size` characters. */
  function Shortened(path: Name, size: nat): Name {
    if size <= |path| then path[..|path| - size] else []
  }

  lemma NothingOpen(names: seq<Name>, n: nat, prune: nat -> bool)
    ensures Rest([], names, n, prune) == []
    ensures Sized([], names) ==> Prefix(names) == []
  {
  }

  /** What is reported for an entry that was read. */
  lemma EntryReport(names: seq<Name>, node: Node, n: nat, prune: nat -> bool)
    ensures var trail := names + [node.name];
            Below(names, node, n, prune) ==
            [Found(trail, node.Dir?)] +
            (if node.File? || prune(n) then [] else Walk(trail, node.kids, n + 1, prune) + [End(trail)])
  {
  }

  // ----- a whole walk -----

  /** What a caller sees of a report. */
  datatype Sight = Sight(path: Name, dirEnd: bool)

  function Sights(events: seq<Event>): seq<Sight> {
    if events == [] then [] else [Sight(Join(events[0].names), events[0].End?)] + Sights(events[1..])
  }

  lemma {:induction false} SightsMore(events: seq<Event>, e: Event)
    ensures Sights(events + [e]) == Sights(events) + [Sight(Join(e.names), e.End?)]
    decreases |events|
  {
    if events != [] {
      SightsMore(events[1..], e);
      assert (events + [e])[1..] == events[1..] + [e];
    }
  }
}
