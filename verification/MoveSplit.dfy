/** tools/p4_split/p4_split.go: one large move cut into several smaller ones.

    Paths are sequences of names. A command on a folder reaches every file strictly below it;
    a move command puts each such file at the same place below its destination. */
module MoveSplit {
  type Path = seq<string>

  /** What a folder holds; an entry whose status cannot be read is passed over. */
  datatype Entry = File(name: string) | Dir(name: string, entries: seq<Entry>) | Unreadable(name: string)

  datatype Node = Node(folderName: string, fileCount: nat, children: seq<Node>)

  datatype Command = Edit(src: Path) | Move(src: Path, dst: Path)

  // ----- The tree of folders -----

  function FileCount(entries: seq<Entry>): nat {
    if entries == [] then 0 else FilesIn(entries[0]) + FileCount(entries[1..])
  }

  function FilesIn(e: Entry): nat {
    match e
    case File(_) => 1
    case Dir(_, entries) => FileCount(entries)
    case Unreadable(_) => 0
  }

  function Folders(entries: seq<Entry>): seq<Node>
    decreases entries, 0
  {
    if entries == [] then []
    else if entries[0].Dir? then [Tree(entries[0].name, entries[0].entries)] + Folders(entries[1..])
    else Folders(entries[1..])
  }

  /** The files found, by their places below the folder. */
  function Paths(entries: seq<Entry>): seq<Path>
    decreases entries, 0
  {
    if entries == [] then [] else PathsIn(entries[0]) + Paths(entries[1..])
  }

  function PathsIn(e: Entry): (paths: seq<Path>)
    decreases e, 1
  {
    match e
    case File(name) => [[name]]
    case Dir(name, entries) => Below(name, Paths(entries))
    case Unreadable(_) => []
  }

  function Below(name: string, paths: seq<Path>): (longer: seq<Path>)
    ensures |longer| == |paths|
    ensures forall i :: 0 <= i < |paths| ==> longer[i] == [name] + paths[i]
  {
    if paths == [] then [] else [[name] + paths[0]] + Below(name, paths[1..])
  }

  /** The count kept in the tree is the number of files found. */
  lemma {:induction false} CountIsPaths(entries: seq<Entry>)
    ensures |Paths(entries)| == FileCount(entries)
  {
    if entries != [] {
      if entries[0].Dir? { CountIsPaths(entries[0].entries); }
      CountIsPaths(entries[1..]);
    }
  }

  predicate FoundIn(e: Entry, r: Path) {
    r != [] && ((e == File(r[0]) && |r| == 1) || (e.Dir? && e.name == r[0] && r[1..] in Paths(e.entries)))
  }

  /** A path found is that of a file here, or of one found in a folder here. */
  lemma {:induction false} PathFound(entries: seq<Entry>, r: Path)
    ensures r in Paths(entries) <==> exists e | e in entries :: FoundIn(e, r)
  {
    if entries != [] {
      EntryFound(entries[0], r);
      hide PathsIn, FoundIn;
      PathFound(entries[1..], r);
    }
  }

  lemma EntryFound(e: Entry, r: Path)
    ensures r in PathsIn(e) <==> FoundIn(e, r)
  {
    match e
    case File(name) =>
      if |r| == 1 { assert r == [r[0]]; }
    case Dir(name, entries) =>
      hide Paths;
      var paths := Paths(entries);
      if r in Below(name, paths) {
        var i :| 0 <= i < |paths| && Below(name, paths)[i] == r;
        assert r[1..] == paths[i];
      }
      if r != [] && name == r[0] && r[1..] in paths {
        var i :| 0 <= i < |paths| && paths[i] == r[1..];
        assert r == Below(name, paths)[i];
      }
    case Unreadable(_) =>
  }

  function Tree(name: string, entries: seq<Entry>): Node
    decreases entries, 1
  {
    Node(name, FileCount(entries), Folders(entries))
  }

  lemma {:induction false} CountOneMore(entries: seq<Entry>, e: Entry)
    ensures FileCount(entries + [e]) == FileCount(entries) + FileCount([e])
    ensures Folders(entries + [e]) == Folders(entries) + Folders([e])
  {
    if entries == [] {
      assert entries + [e] == [e];
    } else {
      assert (entries + [e])[1..] == entries[1..] + [e];
      CountOneMore(entries[1..], e);
    }
  }

  method DirectoryTreeBuild(name: string, entries: seq<Entry>) returns (tree: Node)
    ensures tree == Tree(name, entries)
    decreases entries
  {
    tree := Node(name, 0, []);
    for k := 0 to |entries|
      invariant tree == Node(name, FileCount(entries[..k]), Folders(entries[..k]))
    {
      match entries[k] {
        case Dir(childName, childEntries) =>
          var child := DirectoryTreeBuild(childName, childEntries);
          tree := tree.(fileCount := tree.fileCount + child.fileCount, children := tree.children + [child]);
        case File(_) =>
          tree := tree.(fileCount := tree.fileCount + 1);
        case Unreadable(_) =>
      }
      CountOneMore(entries[..k], entries[k]);
      assert entries[..k + 1] == entries[..k] + [entries[k]];
    }
    assert entries[..|entries|] == entries;
  }

  // ----- The commands -----

  function Commands(tree: Node, src: Path, dst: Path, threshold: int): seq<Command> {
    (if tree.fileCount > threshold then ChildCommands(tree.children, src, dst, threshold) else [])
      + [Edit(src), Move(src, dst)]
  }

  function ChildCommands(children: seq<Node>, src: Path, dst: Path, threshold: int): seq<Command> {
    if children == [] then []
    else
      Commands(children[0], src + [children[0].folderName], dst + [children[0].folderName], threshold)
      + ChildCommands(children[1..], src, dst, threshold)
  }

  lemma {:induction false} OneMoreChild(children: seq<Node>, k: nat, src: Path, dst: Path, threshold: int)
    requires k < |children|
    ensures ChildCommands(children[..k + 1], src, dst, threshold)
         == ChildCommands(children[..k], src, dst, threshold)
          + Commands(children[k], src + [children[k].folderName], dst + [children[k].folderName], threshold)
  {
    if k == 0 {
      assert children[..1] == [children[0]];
    } else {
      assert children[..k + 1][1..] == children[1..][..k] && children[..k][1..] == children[1..][..k - 1];
      OneMoreChild(children[1..], k - 1, src, dst, threshold);
    }
  }

  method EmitMoveCommands(tree: Node, src: Path, dst: Path, threshold: int) returns (out: seq<Command>)
    ensures out == Commands(tree, src, dst, threshold)
    decreases tree
  {
    out := [];
    if tree.fileCount > threshold {
      for k := 0 to |tree.children|
        invariant out == ChildCommands(tree.children[..k], src, dst, threshold)
      {
        var child := tree.children[k];
        var more := EmitMoveCommands(child, src + [child.folderName], dst + [child.folderName], threshold);
        OneMoreChild(tree.children, k, src, dst, threshold);
        out := out + more;
      }
      assert tree.children[..|tree.children|] == tree.children;
    }
    out := out + [Edit(src), Move(src, dst)];
  }

  /** Every command is an edit, followed by the move of the same folder. */
  ghost predicate EditedFirst(cmds: seq<Command>) {
    |cmds| % 2 == 0 && forall k: nat :: k < |cmds| ==> InTurn(cmds, k)
  }

  ghost predicate InTurn(cmds: seq<Command>, k: nat)
    requires k < |cmds|
  {
    if k % 2 == 0 then cmds[k].Edit? else cmds[k].Move? && cmds[k - 1] == Edit(cmds[k].src)
  }

  lemma EditedJoined(a: seq<Command>, b: seq<Command>)
    requires EditedFirst(a) && EditedFirst(b)
    ensures EditedFirst(a + b)
  {
    forall k: nat | k < |a + b| ensures InTurn(a + b, k) {
      if k < |a| { assert InTurn(a, k); } else { assert InTurn(b, k - |a|); }
    }
  }

  /** No folder is moved without having been opened for edit right before. */
  lemma {:induction false} CommandsEdited(tree: Node, src: Path, dst: Path, threshold: int)
    ensures EditedFirst(Commands(tree, src, dst, threshold))
    decreases tree, 1
  {
    ChildrenEdited(tree.children, src, dst, threshold);
    var last := [Edit(src), Move(src, dst)];
    assert InTurn(last, 0) && InTurn(last, 1);
    assert EditedFirst(last) && EditedFirst([]);
    hide EditedFirst;
    EditedJoined(ChildCommands(tree.children, src, dst, threshold), last);
    EditedJoined([], last);
  }

  lemma {:induction false} ChildrenEdited(children: seq<Node>, src: Path, dst: Path, threshold: int)
    ensures EditedFirst(ChildCommands(children, src, dst, threshold))
    decreases children, 0
  {
    if children != [] {
      var child := children[0];
      var first := Commands(child, src + [child.folderName], dst + [child.folderName], threshold);
      CommandsEdited(child, src + [child.folderName], dst + [child.folderName], threshold);
      ChildrenEdited(children[1..], src, dst, threshold);
      hide EditedFirst;
      EditedJoined(first, ChildCommands(children[1..], src, dst, threshold));
    }
  }

  // ----- What commands do to a file -----

  predicate Under(p: Path, folder: Path) {
    |folder| < |p| && folder <= p
  }

  function Apply(c: Command, p: Path): Path {
    if c.Move? && Under(p, c.src) then c.dst + p[|c.src|..] else p
  }

  /** Where the file at p is after the commands. */
  function Track(cmds: seq<Command>, p: Path): Path {
    if cmds == [] then p else Track(cmds[1..], Apply(cmds[0], p))
  }

  /** How many of the commands move the file at p. */
  function Moves(cmds: seq<Command>, p: Path): nat {
    if cmds == [] then 0
    else (if cmds[0].Move? && Under(p, cmds[0].src) then 1 else 0) + Moves(cmds[1..], Apply(cmds[0], p))
  }

  lemma {:induction false} TrackJoined(a: seq<Command>, b: seq<Command>, p: Path)
    ensures Track(a + b, p) == Track(b, Track(a, p))
    ensures Moves(a + b, p) == Moves(a, p) + Moves(b, Track(a, p))
  {
    if a == [] {
      assert a + b == b;
    } else {
      assert (a + b)[1..] == a[1..] + b;
      TrackJoined(a[1..], b, Apply(a[0], p));
    }
  }

  /** Neither folder is the other or inside the other. */
  predicate Disjoint(a: Path, b: Path) {
    !(a <= b) && !(b <= a)
  }

  lemma DisjointSplits(a: Path, b: Path) returns (i: nat)
    requires Disjoint(a, b)
    ensures i < |a| && i < |b| && a[i] != b[i]
  {
    i := 0;
    if |a| <= |b| {
      assert a != b[..|a|];
      i :| 0 <= i < |a| && a[i] != b[i];
    } else {
      assert b != a[..|b|];
      i :| 0 <= i < |b| && a[i] != b[i];
    }
  }

  lemma DisjointBelow(a: Path, b: Path, x: Path, y: Path)
    requires Disjoint(a, b)
    ensures Disjoint(a + x, b + y) && !Under(b + y, a)
  {
    var i := DisjointSplits(a, b);
    assert (a + x)[i] != (b + y)[i];
  }

  // ----- A file outside is not reached -----

  lemma UnderChild(p: Path, src: Path, name: string)
    requires Under(p, src + [name])
    ensures Under(p, src) && p[|src|] == name
  {
    assert src == (src + [name])[..|src|];
    assert p[..|src| + 1] == src + [name];
  }

  lemma LastTwo(src: Path, dst: Path, p: Path)
    ensures Track([Edit(src), Move(src, dst)], p) == Apply(Move(src, dst), p)
    ensures Moves([Edit(src), Move(src, dst)], p) == if Under(p, src) then 1 else 0
  {
    var two := [Edit(src), Move(src, dst)];
    assert two[1..] == [Move(src, dst)] && two[1..][1..] == [];
    assert Track(two, p) == Track(two[1..], p);
    assert Moves(two, p) == Moves(two[1..], p);
  }

  lemma {:induction false} Away(tree: Node, src: Path, dst: Path, threshold: int, p: Path)
    requires !Under(p, src)
    ensures Track(Commands(tree, src, dst, threshold), p) == p && Moves(Commands(tree, src, dst, threshold), p) == 0
  {
    var two := [Edit(src), Move(src, dst)];
    LastTwo(src, dst, p);
    if tree.fileCount > threshold {
      ChildrenAway(tree.children, src, dst, threshold, p);
      TrackJoined(ChildCommands(tree.children, src, dst, threshold), two, p);
    } else {
      assert [] + two == two;
    }
  }

  /** Not below the folder at all, or below none of these children. */
  lemma {:induction false} ChildrenAway(children: seq<Node>, src: Path, dst: Path, threshold: int, p: Path)
    requires forall c | c in children :: !Under(p, src + [c.folderName])  || !Under(p, src)
    ensures Track(ChildCommands(children, src, dst, threshold), p) == p
    ensures Moves(ChildCommands(children, src, dst, threshold), p) == 0
  {
    if children != [] {
      var name := children[0].folderName;
      if Under(p, src + [name]) { UnderChild(p, src, name); }
      Away(children[0], src + [name], dst + [name], threshold, p);
      ChildrenAway(children[1..], src, dst, threshold, p);
      TrackJoined(Commands(children[0], src + [name], dst + [name], threshold),
        ChildCommands(children[1..], src, dst, threshold), p);
    }
  }

  // ----- A file inside is moved once, to its own place -----

  predicate HasChild(children: seq<Node>, name: string) {
    exists c | c in children :: c.folderName == name
  }

  lemma {:induction false} MovedOnce(tree: Node, src: Path, dst: Path, threshold: int, r: Path)
    requires Disjoint(src, dst) && r != []
    ensures Track(Commands(tree, src, dst, threshold), src + r) == dst + r
    ensures Moves(Commands(tree, src, dst, threshold), src + r) == 1
    decreases tree, 0
  {
    var two := [Edit(src), Move(src, dst)];
    LastTwo(src, dst, src + r);
    assert (src + r)[|src|..] == r;
    if tree.fileCount > threshold {
      ChildrenMove(tree.children, src, dst, threshold, r);
      TrackJoined(ChildCommands(tree.children, src, dst, threshold), two, src + r);
      LastTwo(src, dst, dst + r);
      DisjointBelow(src, dst, [], r);
    } else {
      assert [] + two == two;
    }
  }

  /** The children's commands move exactly the files in folders of theirs. */
  lemma {:induction false} ChildrenMove(children: seq<Node>, src: Path, dst: Path, threshold: int, r: Path)
    requires Disjoint(src, dst) && r != []
    ensures Track(ChildCommands(children, src, dst, threshold), src + r) ==
      if |r| > 1 && HasChild(children, r[0]) then dst + r else src + r
    ensures Moves(ChildCommands(children, src, dst, threshold), src + r) ==
      if |r| > 1 && HasChild(children, r[0]) then 1 else 0
  {
    if children != [] {
      hide Commands, Track, Moves, Disjoint, Under, Apply;
      var name := children[0].folderName;
      TrackJoined(Commands(children[0], src + [name], dst + [name], threshold),
        ChildCommands(children[1..], src, dst, threshold), src + r);
      if |r| > 1 && r[0] == name {
        FirstMoves(children[0], src, dst, threshold, r);
        assert HasChild(children, r[0]);
        assert !Under(dst + r, src) by { DisjointBelow(src, dst, [], r); }
        ChildrenAway(children[1..], src, dst, threshold, dst + r);
      } else {
        assert !Under(src + r, src + [name]) by { NotUnderChild(src, r, name); }
        Away(children[0], src + [name], dst + [name], threshold, src + r);
        ChildrenMove(children[1..], src, dst, threshold, r);
      }
    }
  }

  lemma NotUnderChild(src: Path, r: Path, name: string)
    requires r != [] && !(|r| > 1 && r[0] == name)
    ensures !Under(src + r, src + [name])
  {
    if Under(src + r, src + [name]) { UnderChild(src + r, src, name); }
  }

  lemma {:induction false} FirstMoves(child: Node, src: Path, dst: Path, threshold: int, r: Path)
    requires Disjoint(src, dst) && |r| > 1 && r[0] == child.folderName
    ensures Track(Commands(child, src + [child.folderName], dst + [child.folderName], threshold), src + r) == dst + r
    ensures Moves(Commands(child, src + [child.folderName], dst + [child.folderName], threshold), src + r) == 1
    decreases child, 1
  {
    hide Commands, Track, Moves, Disjoint, Under, Apply;
    var name := child.folderName;
    DisjointBelow(src, dst, [name], [name]);
    MovedOnce(child, src + [name], dst + [name], threshold, r[1..]);
    assert r == [name] + r[1..];
    assert src + [name] + r[1..] == src + r && dst + [name] + r[1..] == dst + r;
  }

  /** What a file system allows as a name. */
  predicate RealName(name: string) {
    name != "" && '/' !in name
  }

  /** No two entries of a folder have one name. */
  predicate Real(entries: seq<Entry>) {
    && (forall i :: 0 <= i < |entries| ==> RealName(entries[i].name))
    && (forall i, j :: 0 <= i < j < |entries| ==> entries[i].name != entries[j].name)
    && forall i :: 0 <= i < |entries| && entries[i].Dir? ==> Real(entries[i].entries)
  }

  predicate RealPath(path: Path) {
    forall name | name in path :: RealName(name)
  }

  /** Every file found is moved once and keeps its place, whatever the threshold and the
      folders, exactly if neither end of the move is the other or inside it. */
  lemma MovesAreCleanIff(src: Path, dst: Path)
    requires RealPath(src) && RealPath(dst)
    ensures Disjoint(src, dst) <==> forall name, entries, threshold, r :: Real(entries) && r in Paths(entries) ==>
      && Track(Commands(Tree(name, entries), src, dst, threshold), src + r) == dst + r
      && Moves(Commands(Tree(name, entries), src, dst, threshold), src + r) == 1
  {
    hide Track, Moves, Commands, Tree, Disjoint, Paths, Real, RealPath;
    if Disjoint(src, dst) {
      forall name, entries, threshold, r | Real(entries) && r in Paths(entries)
        ensures Track(Commands(Tree(name, entries), src, dst, threshold), src + r) == dst + r
        ensures Moves(Commands(Tree(name, entries), src, dst, threshold), src + r) == 1
      {
        PathFound(entries, r);
        MovedOnce(Tree(name, entries), src, dst, threshold, r);
      }
    } else {
      var name, entries, threshold, r := MovedTwice(src, dst);
    }
  }

  /** A name that is not this one. */
  function Unlike(name: string): (other: string)
    ensures RealName(other) && other != name
  {
    if name == "a" then "b" else "a"
  }

  /** A folder that is split in two moves. */
  function Pair(sub: string, below: seq<Entry>): seq<Entry> {
    [Dir(sub, below), File(Unlike(sub))]
  }

  function FourSteps(sub: string, src: Path, dst: Path): seq<Command> {
    [Edit(src + [sub]), Move(src + [sub], dst + [sub]), Edit(src), Move(src, dst)]
  }

  lemma PairTree(sub: string, below: seq<Entry>)
    ensures FileCount(Pair(sub, below)) == FileCount(below) + 1
    ensures Folders(Pair(sub, below)) == [Tree(sub, below)]
  {
    hide Unlike;
    var entries := Pair(sub, below);
    assert entries[1..] == [File(Unlike(sub))] && entries[1..][1..] == [];
    assert FileCount(entries[1..]) == 1;
    assert Folders(entries[1..]) == Folders(entries[1..][1..]);
  }

  lemma TwoMoves(name: string, sub: string, below: seq<Entry>, src: Path, dst: Path)
    ensures Commands(Tree(name, Pair(sub, below)), src, dst, FileCount(below)) == FourSteps(sub, src, dst)
  {
    hide FileCount, Folders, Pair;
    PairTree(sub, below);
    var kids := [Tree(sub, below)];
    assert kids[1..] == [];
    assert ChildCommands([], src, dst, FileCount(below)) == [];
    assert ChildCommands(kids, src, dst, FileCount(below)) ==
      Commands(kids[0], src + [sub], dst + [sub], FileCount(below)) + [];
  }

  lemma FourTimes(sub: string, src: Path, dst: Path, p: Path)
    ensures Moves(FourSteps(sub, src, dst), p)
      == (if Under(p, src + [sub]) then 1 else 0)
        + (if Under(Apply(Move(src + [sub], dst + [sub]), p), src) then 1 else 0)
  {
    hide Under, Apply, Track, Moves;
    var a, b := [Edit(src + [sub]), Move(src + [sub], dst + [sub])], [Edit(src), Move(src, dst)];
    assert a + b == FourSteps(sub, src, dst);
    TrackJoined(a, b, p);
    LastTwo(src + [sub], dst + [sub], p);
    LastTwo(src, dst, Apply(Move(src + [sub], dst + [sub]), p));
  }

  /** Folders one inside the other with the file f at the bottom. */
  function Chain(z: Path): seq<Entry> {
    if z == [] then [File("f")] else [Dir(z[0], Chain(z[1..]))]
  }

  lemma {:induction false} ChainHolds(z: Path)
    requires RealPath(z)
    ensures z + ["f"] in Paths(Chain(z)) && Real(Chain(z))
  {
    PathFound(Chain(z), z + ["f"]);
    if z != [] {
      assert z[0] in z && forall name | name in z[1..] :: name in z;
      ChainHolds(z[1..]);
      assert (z + ["f"])[1..] == z[1..] + ["f"];
    }
    assert Chain(z)[0] in Chain(z);
  }

  /** With the ends one inside the other, a folder moved on its own lands where the command
      for the whole picks it up again. */
  lemma MovedTwice(src: Path, dst: Path) returns (name: string, entries: seq<Entry>, threshold: int, r: Path)
    requires !Disjoint(src, dst) && RealPath(src) && RealPath(dst)
    ensures Real(entries) && r in Paths(entries)
      && Moves(Commands(Tree(name, entries), src, dst, threshold), src + r) == 2
  {
    var sub, rest := TopFolder(src, dst);
    hide RealPath, Disjoint, Paths, Moves, Commands, Tree, Apply, Under, Chain, FileCount, Pair, FourSteps, Real;
    name, entries, threshold, r := "x", Pair(sub, Chain(rest)), FileCount(Chain(rest)), [sub] + (rest + ["f"]);
    PairHolds(sub, rest);
    TwoMoves(name, sub, Chain(rest), src, dst);
    FourTimes(sub, src, dst, src + r);
    Reached(src, dst, sub, rest);
  }

  /** The folders between the ends of the move, or any folder if the destination is inside. */
  lemma TopFolder(src: Path, dst: Path) returns (sub: string, rest: Path)
    requires !Disjoint(src, dst) && RealPath(src) && RealPath(dst)
    ensures (src <= dst || src == dst + ([sub] + rest)) && RealName(sub) && RealPath(rest)
  {
    var z := if src <= dst then ["a"] else src[|dst|..];
    assert '/' !in "a" && forall name | name in z :: RealName(name);
    sub, rest := z[0], z[1..];
    assert sub in z && forall name | name in rest :: name in z;
    assert [sub] + rest == z;
  }

  lemma PairHolds(sub: string, rest: Path)
    requires RealName(sub) && RealPath(rest)
    ensures [sub] + (rest + ["f"]) in Paths(Pair(sub, Chain(rest))) && Real(Pair(sub, Chain(rest)))
  {
    ChainHolds(rest);
    var r := [sub] + (rest + ["f"]);
    PathFound(Pair(sub, Chain(rest)), r);
    assert r[1..] == rest + ["f"];
    assert Pair(sub, Chain(rest))[0] in Pair(sub, Chain(rest));
  }

  lemma Reached(src: Path, dst: Path, sub: string, rest: Path)
    requires src <= dst || src == dst + ([sub] + rest)
    ensures var p := src + ([sub] + (rest + ["f"]));
      Under(p, src + [sub]) && Under(Apply(Move(src + [sub], dst + [sub]), p), src)
  {
    var p := src + ([sub] + (rest + ["f"]));
    assert p == src + [sub] + (rest + ["f"]);
    assert Apply(Move(src + [sub], dst + [sub]), p) == dst + [sub] + (rest + ["f"]);
    if src <= dst {
      assert dst == src + dst[|src|..];
    } else {
      assert dst + [sub] + (rest + ["f"]) == src + ["f"];
    }
  }

  // ----- How much one command has to do -----

  /** The file at p is below the folder of command k when that command comes. */
  predicate Meets(cmds: seq<Command>, k: nat, p: Path)
    requires k < |cmds|
  {
    Under(Track(cmds[..k], p), cmds[k].src)
  }

  /** No folder holds two folders of one name. */
  predicate NamesDiffer(entries: seq<Entry>) {
    && (forall i, j :: 0 <= i < j < |entries| && entries[i].Dir? && entries[j].Dir? ==>
      entries[i].name != entries[j].name)
    && forall i :: 0 <= i < |entries| && entries[i].Dir? ==> NamesDiffer(entries[i].entries)
  }

  lemma {:induction false} SourcesBelow(tree: Node, src: Path, dst: Path, threshold: int)
    ensures forall c | c in Commands(tree, src, dst, threshold) :: src <= c.src
    decreases tree
  {
    if tree.fileCount > threshold { ChildSourcesBelow(tree.children, src, dst, threshold); }
  }

  lemma {:induction false} ChildSourcesBelow(children: seq<Node>, src: Path, dst: Path, threshold: int)
    ensures forall c | c in ChildCommands(children, src, dst, threshold) :: src <= c.src
    decreases children
  {
    if children != [] {
      hide Commands;
      var name := children[0].folderName;
      SourcesBelow(children[0], src + [name], dst + [name], threshold);
      ChildSourcesBelow(children[1..], src, dst, threshold);
      forall c | c in Commands(children[0], src + [name], dst + [name], threshold) ensures src <= c.src {
        assert src == (src + [name])[..|src|];
      }
    }
  }

  lemma {:induction false} NotReached(cmds: seq<Command>, folder: Path, p: Path)
    requires (forall c | c in cmds :: folder <= c.src) && !Under(p, folder)
    ensures Track(cmds, p) == p
  {
    if cmds != [] { NotReached(cmds[1..], folder, p); }
  }

  /** The commands of one folder inside src and dst. */
  function FolderCommands(e: Entry, src: Path, dst: Path, threshold: int): seq<Command>
    requires e.Dir?
  {
    Commands(Tree(e.name, e.entries), src + [e.name], dst + [e.name], threshold)
  }

  function Kids(entries: seq<Entry>, src: Path, dst: Path, threshold: int): seq<Command> {
    if FileCount(entries) > threshold then ChildCommands(Folders(entries), src, dst, threshold) else []
  }

  lemma KidsFirst(name: string, entries: seq<Entry>, src: Path, dst: Path, threshold: int)
    ensures Commands(Tree(name, entries), src, dst, threshold) ==
      Kids(entries, src, dst, threshold) + [Edit(src), Move(src, dst)]
  {
  }

  /** Whatever command k of the list meets is in this folder, and met by command j of its own. */
  ghost predicate FromChild(list: seq<Command>, k: nat, name: string, cmds: seq<Command>, j: nat, src: Path)
    requires k < |list| && j < |cmds|
  {
    && cmds[j] == list[k]
    && forall r: Path :: r != [] && Meets(list, k, src + r) ==>
      |r| > 1 && r[0] == name && Meets(cmds, j, src + [name] + r[1..])
  }

  /** A command met among those of the children is met among those of the one child the file
      is in. */
  lemma {:induction false} OneChildMeets(rest: seq<Entry>, src: Path, dst: Path, threshold: int, k: nat)
    returns (m: nat, j: nat)
    requires Disjoint(src, dst) && k < |ChildCommands(Folders(rest), src, dst, threshold)|
    ensures m < |rest| && rest[m].Dir? && j < |FolderCommands(rest[m], src, dst, threshold)|
    ensures FromChild(ChildCommands(Folders(rest), src, dst, threshold), k, rest[m].name,
      FolderCommands(rest[m], src, dst, threshold), j, src)
    decreases rest, 1
  {
    HeadCommands(rest, src, dst, threshold);
    hide ChildCommands, Folders, FolderCommands, FromChild, Disjoint;
    if !rest[0].Dir? {
      m, j := OneChildMeets(rest[1..], src, dst, threshold, k);
      m := m + 1;
    } else {
      m, j := HeadOrTail(rest, src, dst, threshold, k);
    }
  }

  lemma {:induction false} HeadOrTail(rest: seq<Entry>, src: Path, dst: Path, threshold: int, k: nat)
    returns (m: nat, j: nat)
    requires Disjoint(src, dst) && rest != [] && rest[0].Dir?
    requires k < |FolderCommands(rest[0], src, dst, threshold)|
      + |ChildCommands(Folders(rest[1..]), src, dst, threshold)|
    ensures m < |rest| && rest[m].Dir? && j < |FolderCommands(rest[m], src, dst, threshold)|
    ensures FromChild(FolderCommands(rest[0], src, dst, threshold)
      + ChildCommands(Folders(rest[1..]), src, dst, threshold), k,
                      rest[m].name, FolderCommands(rest[m], src, dst, threshold), j, src)
    decreases rest, 0
  {
    hide ChildCommands, Folders, FolderCommands, FromChild, Disjoint;
    var first := FolderCommands(rest[0], src, dst, threshold);
    if k < |first| {
      m, j := 0, k;
      HeadMeets(rest[0], src, dst, threshold, k, ChildCommands(Folders(rest[1..]), src, dst, threshold));
    } else {
      m, j := OneChildMeets(rest[1..], src, dst, threshold, k - |first|);
      var e := rest[1..][m];
      m := m + 1;
      TailMeets(rest[0], rest[1..], src, dst, threshold, k, e.name, FolderCommands(e, src, dst, threshold), j);
    }
  }

  lemma HeadCommands(rest: seq<Entry>, src: Path, dst: Path, threshold: int)
    requires ChildCommands(Folders(rest), src, dst, threshold) != []
    ensures rest != [] && ChildCommands(Folders(rest), src, dst, threshold) ==
      if rest[0].Dir? then FolderCommands(rest[0], src, dst, threshold)
        + ChildCommands(Folders(rest[1..]), src, dst, threshold)
      else ChildCommands(Folders(rest[1..]), src, dst, threshold)
  {
    if rest != [] && rest[0].Dir? {
      assert Folders(rest)[1..] == Folders(rest[1..]);
    }
  }

  lemma HeadMeets(e: Entry, src: Path, dst: Path, threshold: int, k: nat, others: seq<Command>)
    requires e.Dir? && k < |FolderCommands(e, src, dst, threshold)|
    ensures FromChild(FolderCommands(e, src, dst, threshold) + others, k, e.name,
      FolderCommands(e, src, dst, threshold), k, src)
  {
    var first := FolderCommands(e, src, dst, threshold);
    SourcesBelow(Tree(e.name, e.entries), src + [e.name], dst + [e.name], threshold);
    var folder := first[k].src;
    hide Commands, Tree, Track, Under;
    forall r: Path | r != [] && Meets(first + others, k, src + r)
      ensures |r| > 1 && r[0] == e.name && Meets(first, k, src + [e.name] + r[1..])
    {
      assert (first + others)[..k] == first[..k];
      if |r| > 1 && r[0] == e.name {
        assert src + [e.name] + r[1..] == src + r;
      } else {
        NotUnderChild(src, r, e.name);
        NotReached(first[..k], src + [e.name], src + r);
        NotDeeper(src + r, src + [e.name], folder);
        assert false;
      }
    }
  }

  lemma NotDeeper(p: Path, folder: Path, deeper: Path)
    requires !Under(p, folder) && folder <= deeper
    ensures !Under(p, deeper)
  {
    assert folder == deeper[..|folder|];
  }

  lemma TailMeets(e: Entry, rest: seq<Entry>, src: Path, dst: Path, threshold: int, k: nat, name: string,
    cmds: seq<Command>, j: nat)
    requires e.Dir? && Disjoint(src, dst) && j < |cmds|
    requires var n := |FolderCommands(e, src, dst, threshold)|;
      n <= k < n + |ChildCommands(Folders(rest), src, dst, threshold)|
    requires FromChild(ChildCommands(Folders(rest), src, dst, threshold),
      k - |FolderCommands(e, src, dst, threshold)|, name, cmds, j, src)
    ensures FromChild(FolderCommands(e, src, dst, threshold) + ChildCommands(Folders(rest), src, dst, threshold), k,
      name, cmds, j, src)
  {
    ChildSourcesBelow(Folders(rest), src, dst, threshold);
    hide FolderCommands, ChildCommands, Folders, Meets, Disjoint, FromChild;
    var first, others := FolderCommands(e, src, dst, threshold), ChildCommands(Folders(rest), src, dst, threshold);
    forall r: Path | r != [] && Meets(first + others, k, src + r) ensures Meets(others, k - |first|, src + r) {
      PastFirst(e, others, src, dst, threshold, k, r);
    }
    FromTail(first, others, k, name, cmds, j, src);
  }

  lemma FromTail(first: seq<Command>, others: seq<Command>, k: nat, name: string, cmds: seq<Command>, j: nat, src: Path)
    requires |first| <= k < |first| + |others| && j < |cmds|
    requires forall r: Path :: r != [] && Meets(first + others, k, src + r) ==> Meets(others, k - |first|, src + r)
    requires FromChild(others, k - |first|, name, cmds, j, src)
    ensures FromChild(first + others, k, name, cmds, j, src)
  {
    hide Meets;
  }

  lemma PastFirst(e: Entry, others: seq<Command>, src: Path, dst: Path, threshold: int, k: nat, r: Path)
    requires e.Dir? && Disjoint(src, dst) && r != [] && forall c | c in others :: src <= c.src
    requires var n := |FolderCommands(e, src, dst, threshold)|; n <= k < n + |others|
    requires Meets(FolderCommands(e, src, dst, threshold) + others, k, src + r)
    ensures Meets(others, k - |FolderCommands(e, src, dst, threshold)|, src + r)
  {
    var first := FolderCommands(e, src, dst, threshold);
    var j := k - |first|;
    hide Commands, Track, Under, Disjoint;
    assert (first + others)[..k] == first + others[..j];
    TrackJoined(first, others[..j], src + r);
    if |r| > 1 && r[0] == e.name {
      FirstMoves(Tree(e.name, e.entries), src, dst, threshold, r);
      DisjointBelow(src, dst, [], r);
      NotReached(others[..j], src, dst + r);
      NotDeeper(dst + r, src, others[j].src);
      assert false;
    } else {
      NotUnderChild(src, r, e.name);
      Away(Tree(e.name, e.entries), src + [e.name], dst + [e.name], threshold, src + r);
    }
  }

  lemma {:induction false} FolderKept(entries: seq<Entry>, e: Entry)
    requires e in entries && e.Dir?
    ensures HasChild(Folders(entries), e.name)
  {
    if entries[0] == e {
      assert Folders(entries)[0] in Folders(entries);
    } else {
      assert entries == [entries[0]] + entries[1..];
      FolderKept(entries[1..], e);
      var c :| c in Folders(entries[1..]) && c.folderName == e.name;
      assert c in Folders(entries);
    }
  }

  /** After the children's commands only files of the folder itself are left. */
  lemma LastMeets(entries: seq<Entry>, src: Path, dst: Path, threshold: int, k: nat, r: Path)
    requires Disjoint(src, dst) && r in Paths(entries)
    requires var kids := ChildCommands(Folders(entries), src, dst, threshold);
      |kids| <= k < |kids| + 2 && Meets(kids + [Edit(src), Move(src, dst)], k, src + r)
    ensures |r| == 1
  {
    var kids := ChildCommands(Folders(entries), src, dst, threshold);
    PathFound(entries, r);
    var e :| e in entries && FoundIn(e, r);
    if e.Dir? {
      FolderKept(entries, e);
      hide ChildCommands, Folders, Disjoint, Paths, Under;
      if |r| > 1 {
        ChildrenMove(Folders(entries), src, dst, threshold, r);
        DisjointBelow(src, dst, [], r);
        StillMet(kids, src, dst, k, src + r);
        assert false;
      }
    }
  }

  lemma StillMet(kids: seq<Command>, src: Path, dst: Path, k: nat, p: Path)
    requires |kids| <= k < |kids| + 2 && Meets(kids + [Edit(src), Move(src, dst)], k, p)
    ensures Under(Track(kids, p), src)
  {
    hide Under;
    if k == |kids| {
      assert (kids + [Edit(src), Move(src, dst)])[..k] == kids;
    } else {
      assert (kids + [Edit(src), Move(src, dst)])[..k] == kids + [Edit(src)];
      TrackJoined(kids, [Edit(src)], p);
      assert Track([Edit(src)], Track(kids, p)) == Track(kids, p) by { assert [Edit(src)][1..] == []; }
    }
  }

  lemma PathInFolder(entries: seq<Entry>, m: nat, r: Path)
    requires NamesDiffer(entries) && m < |entries| && entries[m].Dir?
    requires r in Paths(entries) && |r| > 1 && r[0] == entries[m].name
    ensures r[1..] in Paths(entries[m].entries)
  {
    PathFound(entries, r);
    var e :| e in entries && FoundIn(e, r);
    var i :| 0 <= i < |entries| && entries[i] == e;
  }

  /** The files found that command k meets are all in the folder inside, which is at q: within
      the threshold counting those further down, or directly in it. */
  ghost predicate Gathers(entries: seq<Entry>, cmds: seq<Command>, k: nat, src: Path, threshold: int, q: Path,
    inside: seq<Entry>)
    requires k < |cmds|
  {
    forall r | r in Paths(entries) && Meets(cmds, k, src + r) ::
      q <= r && r[|q|..] in Paths(inside) && (FileCount(inside) > threshold ==> |r| == |q| + 1)
  }

  lemma {:induction false} OneFolder(name: string, entries: seq<Entry>, src: Path, dst: Path, threshold: int, k: nat)
    returns (q: Path, inside: seq<Entry>)
    requires Disjoint(src, dst) && NamesDiffer(entries) && k < |Commands(Tree(name, entries), src, dst, threshold)|
    ensures Commands(Tree(name, entries), src, dst, threshold)[k].src == src + q
    ensures Gathers(entries, Commands(Tree(name, entries), src, dst, threshold), k, src, threshold, q, inside)
    decreases entries
  {
    KidsFirst(name, entries, src, dst, threshold);
    hide Commands, Tree, Disjoint, Gathers, NamesDiffer, Kids;
    if k >= |Kids(entries, src, dst, threshold)| {
      q, inside := [], entries;
      assert src + q == src;
      LastGathers(entries, src, dst, threshold, k);
    } else {
      var m, j := FolderOfCommand(entries, src, dst, threshold, k);
      var e := entries[m];
      InnerNames(entries, m);
      DisjointBelow(src, dst, [e.name], [e.name]);
      var q1, inside1 := OneFolder(e.name, e.entries, src + [e.name], dst + [e.name], threshold, j);
      q, inside := [e.name] + q1, inside1;
      ChildGathers(entries, m, src, dst, threshold, k, j, q1, inside1);
    }
  }

  lemma FolderOfCommand(entries: seq<Entry>, src: Path, dst: Path, threshold: int, k: nat) returns (m: nat, j: nat)
    requires Disjoint(src, dst) && k < |Kids(entries, src, dst, threshold)|
    ensures m < |entries| && entries[m].Dir? && j < |FolderCommands(entries[m], src, dst, threshold)|
    ensures FromChild(Kids(entries, src, dst, threshold), k, entries[m].name,
      FolderCommands(entries[m], src, dst, threshold), j, src)
  {
    hide Commands, ChildCommands, Folders, Tree, FromChild, Disjoint, FileCount;
    m, j := OneChildMeets(entries, src, dst, threshold, k);
  }

  lemma InnerNames(entries: seq<Entry>, m: nat)
    requires NamesDiffer(entries) && m < |entries| && entries[m].Dir?
    ensures NamesDiffer(entries[m].entries)
  {
  }

  lemma LastGathers(entries: seq<Entry>, src: Path, dst: Path, threshold: int, k: nat)
    requires Disjoint(src, dst) && |Kids(entries, src, dst, threshold)| <= k < |Kids(entries, src, dst, threshold)| + 2
    ensures Gathers(entries, Kids(entries, src, dst, threshold) + [Edit(src), Move(src, dst)], k, src, threshold, [],
      entries)
  {
    hide ChildCommands, Folders, Meets, Disjoint, FileCount, Paths;
    var kids := Kids(entries, src, dst, threshold);
    forall r | r in Paths(entries) && Meets(kids + [Edit(src), Move(src, dst)], k, src + r)
      ensures r[0..] in Paths(entries) && (FileCount(entries) > threshold ==> |r| == 1)
    {
      assert r[0..] == r;
      if FileCount(entries) > threshold { LastMeets(entries, src, dst, threshold, k, r); }
    }
  }

  /** What the command gathers in folder m's own list it gathers in the whole list. */
  lemma ChildGathers(entries: seq<Entry>, m: nat, src: Path, dst: Path, threshold: int, k: nat, j: nat, q: Path,
    inside: seq<Entry>)
    requires NamesDiffer(entries) && m < |entries| && entries[m].Dir?
    requires k < |Kids(entries, src, dst, threshold)| && j < |FolderCommands(entries[m], src, dst, threshold)|
    requires FromChild(Kids(entries, src, dst, threshold), k, entries[m].name,
      FolderCommands(entries[m], src, dst, threshold), j, src)
    requires FolderCommands(entries[m], src, dst, threshold)[j].src == src + [entries[m].name] + q
    requires Gathers(entries[m].entries, FolderCommands(entries[m], src, dst, threshold), j, src + [entries[m].name],
      threshold, q, inside)
    ensures var all := Kids(entries, src, dst, threshold) + [Edit(src), Move(src, dst)];
      all[k].src == src + ([entries[m].name] + q)
        && Gathers(entries, all, k, src, threshold, [entries[m].name] + q, inside)
  {
    hide Meets, FileCount, Paths, NamesDiffer, FolderCommands, Kids;
    var e, kids := entries[m], Kids(entries, src, dst, threshold);
    var longer := [e.name] + q;
    assert src + [e.name] + q == src + longer;
    forall r | r in Paths(entries) && Meets(kids + [Edit(src), Move(src, dst)], k, src + r)
      ensures longer <= r && r[|longer|..] in Paths(inside) && (FileCount(inside) > threshold ==> |r| == |longer| + 1)
    {
      MetInKids(kids, src, dst, k, src + r);
      assert r != [] by { PathFound(entries, r); }
      PathInFolder(entries, m, r);
      Longer(e.name, q, r[1..]);
      assert r == [e.name] + r[1..];
    }
  }

  lemma Longer(name: string, q: Path, r: Path)
    ensures q <= r ==> [name] + q <= [name] + r && ([name] + r)[|[name] + q|..] == r[|q|..]
  {
  }

  lemma MetInKids(kids: seq<Command>, src: Path, dst: Path, k: nat, p: Path)
    requires k < |kids| && Meets(kids + [Edit(src), Move(src, dst)], k, p)
    ensures Meets(kids, k, p)
  {
    assert (kids + [Edit(src), Move(src, dst)])[..k] == kids[..k];
  }

  /** No command reaches more files than the threshold, unless one folder directly holds more
      and they are what it reaches. */
  lemma CommandsAreSmall(name: string, entries: seq<Entry>, src: Path, dst: Path, threshold: int, k: nat)
    requires Disjoint(src, dst) && NamesDiffer(entries) && k < |Commands(Tree(name, entries), src, dst, threshold)|
    ensures var cmds := Commands(Tree(name, entries), src, dst, threshold);
      var met := set r | r in Paths(entries) && Meets(cmds, k, src + r);
      |met| <= threshold || forall r | r in met :: |src + r| == |cmds[k].src| + 1
  {
    var cmds := Commands(Tree(name, entries), src, dst, threshold);
    var q, inside := OneFolder(name, entries, src, dst, threshold, k);
    hide Commands, Tree, Meets, Disjoint, FileCount, Paths, NamesDiffer;
    var met := set r | r in Paths(entries) && Meets(cmds, k, src + r);
    if FileCount(inside) <= threshold {
      CountIsPaths(inside);
      FewerThan(met, q, Paths(inside));
    }
  }

  lemma {:induction false} FewerThan(met: set<Path>, q: Path, paths: seq<Path>)
    requires forall r | r in met :: q <= r && r[|q|..] in paths
    ensures |met| <= |paths|
  {
    if paths == [] {
      assert met == {};
    } else {
      var here := q + paths[0];
      forall r | r in met - {here} ensures q <= r && r[|q|..] in paths[1..] {
        assert r == q + r[|q|..];
      }
      FewerThan(met - {here}, q, paths[1..]);
    }
  }
}
