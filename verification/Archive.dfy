/**
 * Directory download: the stack loop of `archive` (src/directory_listing_download.rs), refined to a recursive
 * traversal, on any finite tree (a followed directory link stands for the tree it leads to).
 */
module Archive {
  import opened Wrappers
  import opened Bytes
  import opened Paths

  datatype Node = File | Dir(entries: seq<Entry>) | Symlink(target: Option<Node>)

  datatype Entry = Entry(name: Name, node: Node)

  /** How links and dot-named entries are treated. */
  datatype Mode = Mode(followSymlinks: bool, ignoreHidden: bool)

  /** One stop of the traversal; a broken one cannot be appended. */
  datatype Member = Member(dest: seq<Name>, isDir: bool, broken: bool)

  function Size(node: Node): nat {
    match node
    case File => 1
    case Dir(entries) => 1 + SizeOfEntries(entries)
    case Symlink(target) => if target.Some? then 1 + Size(target.value) else 1
  }

  function SizeOfEntries(entries: seq<Entry>): nat {
    if entries == [] then 0
    else SizeOfEntries(entries[..|entries| - 1]) + Size(entries[|entries| - 1].node)
  }

  /** `src.is_dir()` and `read_dir(src)`: both look through links. */
  function ReadDir(node: Node): (r: Option<seq<Entry>>)
    ensures r.Some? ==> SizeOfEntries(r.value) < Size(node)
  {
    match node
    case File => None
    case Dir(entries) => Some(entries)
    case Symlink(target) => if target.Some? then ReadDir(target.value) else None
  }

  /** The entries the traversal descends into. */
  function Children(node: Node, mode: Mode): (r: Option<seq<Entry>>)
    ensures r.Some? ==> SizeOfEntries(r.value) < Size(node)
  {
    if node.Dir? || (node.Symlink? && mode.followSymlinks && ReadDir(node).Some?) then ReadDir(node) else None
  }

  /** A link, or a chain of links, that leads to nothing. */
  predicate Dangling(node: Node) {
    node.Symlink? && (node.target.None? || Dangling(node.target.value))
  }

  /** Appending reads metadata through a followed link, so it fails where the link dangles. */
  predicate Broken(node: Node, mode: Mode) {
    mode.followSymlinks && Dangling(node)
  }

  predicate Skipped(name: Name, mode: Mode) {
    mode.ignoreHidden && name != [] && name[0] == DOT
  }

  /** The recursive traversal: a node itself, then the trees of its entries, last entry first. */
  function Tree(base: seq<Name>, node: Node, mode: Mode): seq<Member>
    decreases Size(node), 0
  {
    var children := Children(node, mode);
    [Member(base, children.Some?, Broken(node, mode))] + if children.Some? then Forest(base, children.value, mode) else []
  }

  function Forest(base: seq<Name>, entries: seq<Entry>, mode: Mode): seq<Member>
    decreases SizeOfEntries(entries), 1, |entries|
  {
    if entries == [] then []
    else
      var last := entries[|entries| - 1];
      (if Skipped(last.name, mode) then [] else Tree(base + [last.name], last.node, mode))
      + Forest(base, entries[..|entries| - 1], mode)
  }

  // ----- The loop -----

  datatype Item = Item(rel: seq<Name>, node: Node)

  /** What is still to be written for the items on the stack, top first. */
  ghost function Pending(path: seq<Name>, stack: seq<Item>, mode: Mode): seq<Member> {
    if stack == [] then []
    else
      var top := stack[|stack| - 1];
      Tree(path + top.rel, top.node, mode) + Pending(path, stack[..|stack| - 1], mode)
  }

  ghost function SizeOfStack(stack: seq<Item>): nat {
    if stack == [] then 0 else SizeOfStack(stack[..|stack| - 1]) + Size(stack[|stack| - 1].node)
  }

  lemma PushStep(path: seq<Name>, stack: seq<Item>, item: Item, mode: Mode)
    ensures Pending(path, stack + [item], mode) == Tree(path + item.rel, item.node, mode) + Pending(path, stack, mode)
    ensures SizeOfStack(stack + [item]) == SizeOfStack(stack) + Size(item.node)
  {
    assert (stack + [item])[..|stack|] == stack;
  }

  /** What is written: everything up to the first stop that cannot be appended, whose error ends the archive. */
  function Written(all: seq<Member>): seq<Member> {
    if all == [] || all[0].broken then [] else [all[0]] + Written(all[1..])
  }

  ghost predicate Unbroken(all: seq<Member>) {
    forall m <- all :: !m.broken
  }

  lemma {:induction false} WrittenUpTo(all: seq<Member>, rest: seq<Member>)
    requires Unbroken(all) && (rest == [] || rest[0].broken)
    ensures Written(all + rest) == all
  {
    if all == [] {
      assert all + rest == rest;
    } else {
      assert (all + rest)[1..] == all[1..] + rest;
      assert all[0] in all && forall m <- all[1..] :: m in all;
      WrittenUpTo(all[1..], rest);
    }
  }

  lemma {:induction false} WrittenIsPrefix(all: seq<Member>)
    ensures Written(all) <= all && Unbroken(Written(all))
    ensures Unbroken(all) <==> Written(all) == all
    ensures Written(all) != all ==> all[|Written(all)|].broken
  {
    if all != [] && !all[0].broken {
      WrittenIsPrefix(all[1..]);
      assert all == [all[0]] + all[1..];
      if Written(all) != all {
        assert Written(all[1..]) != all[1..];
      }
    }
  }

  /** The members, without the root itself when it has no name in the archive. */
  ghost function Named(path: seq<Name>, all: seq<Member>): seq<Member> {
    if path == [] && all != [] then all[1..] else all
  }

  /** The archive as `WriteArchive` writes it. */
  ghost function ArchiveOf(path: seq<Name>, root: seq<Entry>, mode: Mode): seq<Member> {
    Named(path, Written(Tree(path, Dir(root), mode)))
  }

  lemma PushEntry(path: seq<Name>, stack: seq<Item>, pushed: seq<Item>, rel: seq<Name>, entries: seq<Entry>, k: nat, mode: Mode)
    requires k < |entries|
    requires Pending(path, pushed, mode) == Forest(path + rel, entries[..k], mode) + Pending(path, stack, mode)
    ensures var e := entries[k];
            var next := if Skipped(e.name, mode) then pushed else pushed + [Item(rel + [e.name], e.node)];
            && Pending(path, next, mode) == Forest(path + rel, entries[..k + 1], mode) + Pending(path, stack, mode)
            && SizeOfStack(next) <= SizeOfStack(pushed) + Size(e.node)
    ensures SizeOfEntries(entries[..k + 1]) == SizeOfEntries(entries[..k]) + Size(entries[k].node)
  {
    hide Tree, Size;
    var e, below := entries[k], Pending(path, stack, mode);
    assert entries[..k + 1][..k] == entries[..k];
    var before := Forest(path + rel, entries[..k], mode);
    if !Skipped(e.name, mode) {
      PushStep(path, pushed, Item(rel + [e.name], e.node), mode);
      assert path + (rel + [e.name]) == path + rel + [e.name];
      var tree := Tree(path + rel + [e.name], e.node, mode);
      assert tree + (before + below) == tree + before + below;
    } else {
      assert Forest(path + rel, entries[..k + 1], mode) == before;
    }
  }

  method PushEntries(path: seq<Name>, stack: seq<Item>, rel: seq<Name>, entries: seq<Entry>, mode: Mode)
    returns (pushed: seq<Item>)
    ensures Pending(path, pushed, mode) == Forest(path + rel, entries, mode) + Pending(path, stack, mode)
    ensures SizeOfStack(pushed) <= SizeOfStack(stack) + SizeOfEntries(entries)
    ensures (forall item <- stack :: item.rel != []) ==> forall item <- pushed :: item.rel != []
  {
    pushed := stack;
    for k := 0 to |entries|
      invariant Pending(path, pushed, mode) == Forest(path + rel, entries[..k], mode) + Pending(path, stack, mode)
      invariant SizeOfStack(pushed) <= SizeOfStack(stack) + SizeOfEntries(entries[..k])
      invariant (forall item <- stack :: item.rel != []) ==> forall item <- pushed :: item.rel != []
    {
      PushEntry(path, stack, pushed, rel, entries, k, mode);
      var entry := entries[k];
      if Skipped(entry.name, mode) {
        continue;
      }
      pushed := pushed + [Item(rel + [entry.name], entry.node)];
    }
    assert entries[..|entries|] == entries;
  }

  lemma NamedStep(path: seq<Name>, all: seq<Member>, m: Member)
    requires all != [] || m.dest == path
    ensures Named(path, all + [m]) == if all == [] && path == [] then [] else Named(path, all) + [m]
  {
    if all != [] {
      assert (all + [m])[1..] == all[1..] + [m];
    }
  }

  /** The loop invariant: what has been written and what is pending make up the whole traversal. */
  ghost predicate Progress(path: seq<Name>, root: seq<Entry>, mode: Mode, all: seq<Member>, members: seq<Member>, stack: seq<Item>) {
    && all + Pending(path, stack, mode) == Tree(path, Dir(root), mode)
    && members == Named(path, all) && Unbroken(all)
    && if all == [] then stack == [Item([], Dir(root))] else forall item <- stack :: item.rel != []
  }

  /** What popping one item writes and leaves to be done. */
  ghost predicate Popped(path: seq<Name>, mode: Mode, stack: seq<Item>, m: Member, next: seq<Item>) {
    && stack != []
    && var top, rest := stack[|stack| - 1], stack[..|stack| - 1];
       var children := Children(top.node, mode);
       && m == Member(path + top.rel, children.Some?, Broken(top.node, mode))
       && Pending(path, next, mode)
          == (if children.Some? then Forest(path + top.rel, children.value, mode) else []) + Pending(path, rest, mode)
  }

  lemma PendingStep(path: seq<Name>, mode: Mode, stack: seq<Item>, m: Member, next: seq<Item>)
    requires Popped(path, mode, stack, m, next)
    ensures Pending(path, stack, mode) == [m] + Pending(path, next, mode)
  {
    var top, rest := stack[|stack| - 1], stack[..|stack| - 1];
    var children := Children(top.node, mode);
    Assoc([m], if children.Some? then Forest(path + top.rel, children.value, mode) else [], Pending(path, rest, mode));
  }

  lemma WriteStep(path: seq<Name>, root: seq<Entry>, mode: Mode, all: seq<Member>, members: seq<Member>,
                  stack: seq<Item>, m: Member, next: seq<Item>)
    requires Progress(path, root, mode, all, members, stack)
    requires Popped(path, mode, stack, m, next) && !m.broken && forall item <- next :: item.rel != []
    ensures Progress(path, root, mode, all + [m], if m.dest == [] then members else members + [m], next)
  {
    PendingStep(path, mode, stack, m, next);
    Assoc(all, [m], Pending(path, next, mode));
    assert stack[|stack| - 1] in stack;
    if all == [] {
      assert path + [] == path;
    } else {
      assert m.dest != [];
    }
    NamedStep(path, all, m);
  }

  lemma BreakStep(path: seq<Name>, root: seq<Entry>, mode: Mode, all: seq<Member>, members: seq<Member>,
                  stack: seq<Item>, m: Member, next: seq<Item>)
    requires Progress(path, root, mode, all, members, stack)
    requires Popped(path, mode, stack, m, next) && m.broken
    ensures var tree := Tree(path, Dir(root), mode); Written(tree) == all && Written(tree) != tree
  {
    PendingStep(path, mode, stack, m, next);
    var rest := Pending(path, stack, mode);
    assert rest[0] == m;
    WrittenUpTo(all, rest);
    assert |all + rest| > |all|;
  }

  lemma ReadableIsUnbroken(node: Node)
    requires ReadDir(node).Some?
    ensures !Dangling(node)
  {
    if node.Symlink? {
      ReadableIsUnbroken(node.target.value);
    }
  }

  /**
   * `path` is the archive's own directory name; `root` lists the requested directory. The archive is `finished`
   * unless an entry cannot be appended, whose error drops it and all that is still on the stack.
   */
  method WriteArchive(path: seq<Name>, root: seq<Entry>, mode: Mode) returns (members: seq<Member>, finished: bool)
    ensures members == ArchiveOf(path, root, mode)
    ensures var tree := Tree(path, Dir(root), mode); finished <==> Written(tree) == tree
  {
    var stack := [Item([], Dir(root))];
    members := [];
    ghost var all: seq<Member> := [];
    assert path + [] == path;
    PushStep(path, [], stack[0], mode);
    while stack != []
      invariant Progress(path, root, mode, all, members, stack)
      decreases SizeOfStack(stack)
    {
      ghost var before := stack;
      var top := stack[|stack| - 1];
      stack := stack[..|stack| - 1];
      var dest := path + top.rel;
      if top.node.Dir? || (top.node.Symlink? && mode.followSymlinks && ReadDir(top.node).Some?) {
        ReadableIsUnbroken(top.node);
        stack := PushEntries(path, stack, top.rel, ReadDir(top.node).value, mode);
        WriteStep(path, root, mode, all, members, before, Member(dest, true, false), stack);
        all := all + [Member(dest, true, false)];
        if dest != [] {
          members := members + [Member(dest, true, false)];
        }
      } else {
        if mode.followSymlinks && Dangling(top.node) {
          BreakStep(path, root, mode, all, members, before, Member(dest, false, true), stack);
          return members, false;
        }
        WriteStep(path, root, mode, all, members, before, Member(dest, false, false), stack);
        all := all + [Member(dest, false, false)];
        members := members + [Member(dest, false, false)];
      }
    }
    WrittenIsPrefix(all);
    assert all + [] == all;
    finished := true;
  }

  // ----- What the traversal contains -----

  ghost predicate WellFormed(node: Node) {
    match node
    case File => true
    case Dir(entries) =>
      && (forall i, j | 0 <= i < j < |entries| :: entries[i].name != entries[j].name)
      && forall e <- entries :: WellFormed(e.node)
    case Symlink(target) => target.Some? ==> WellFormed(target.value)
  }

  ghost predicate DistinctEntries(entries: seq<Entry>) {
    && (forall i, j | 0 <= i < j < |entries| :: entries[i].name != entries[j].name)
    && forall e <- entries :: WellFormed(e.node)
  }

  /** The node a relative path leads to, through directories and followed links. */
  function At(node: Node, rel: seq<Name>, mode: Mode): Option<Node>
    decreases |rel|
  {
    if rel == [] then Some(node)
    else
      var children := Children(node, mode);
      if children.None? then None
      else
        var child := Find(children.value, rel[0]);
        if child.None? then None else At(child.value, rel[1..], mode)
  }

  function Find(entries: seq<Entry>, name: Name): Option<Node> {
    if entries == [] then None
    else if entries[|entries| - 1].name == name then Some(entries[|entries| - 1].node)
    else Find(entries[..|entries| - 1], name)
  }

  /** What belongs in the archive: every path that exists and, if hidden files are ignored, has no dot name. */
  ghost predicate Belongs(node: Node, rel: seq<Name>, mode: Mode) {
    At(node, rel, mode).Some? && forall n <- rel :: !Skipped(n, mode)
  }

  ghost predicate BelongsBelow(entries: seq<Entry>, rel: seq<Name>, mode: Mode) {
    && rel != [] && Find(entries, rel[0]).Some? && !Skipped(rel[0], mode)
    && Belongs(Find(entries, rel[0]).value, rel[1..], mode)
  }

  lemma BelongsSplit(node: Node, rel: seq<Name>, mode: Mode)
    requires rel != []
    ensures Belongs(node, rel, mode) <==>
            Children(node, mode).Some? && BelongsBelow(Children(node, mode).value, rel, mode)
  {
    assert rel == [rel[0]] + rel[1..];
    if Belongs(node, rel, mode) {
      assert rel[0] in rel;
    }
  }

  lemma ChildrenWellFormed(node: Node, mode: Mode)
    requires WellFormed(node) && Children(node, mode).Some?
    ensures DistinctEntries(Children(node, mode).value)
  {
    ReadDirWellFormed(node);
  }

  lemma {:induction false} ReadDirWellFormed(node: Node)
    requires WellFormed(node) && ReadDir(node).Some?
    ensures DistinctEntries(ReadDir(node).value)
  {
    if node.Symlink? {
      ReadDirWellFormed(node.target.value);
    }
  }

  /** Nothing else: every member is a path that belongs, marked as a directory iff it is descended into. */
  lemma {:induction false} TreeIsSound(base: seq<Name>, node: Node, mode: Mode, k: nat)
    requires WellFormed(node) && k < |Tree(base, node, mode)|
    ensures var m := Tree(base, node, mode)[k];
            && base <= m.dest
            && Belongs(node, m.dest[|base|..], mode)
            && (m.isDir <==> Children(At(node, m.dest[|base|..], mode).value, mode).Some?)
            && (m.broken <==> Broken(At(node, m.dest[|base|..], mode).value, mode))
            && (k > 0 ==> m.dest != base)
    decreases Size(node), 0
  {
    var m := Tree(base, node, mode)[k];
    if k == 0 {
      assert m.dest[|base|..] == [];
    } else {
      var entries := Children(node, mode).value;
      ChildrenWellFormed(node, mode);
      ForestIsSound(base, entries, mode, k - 1);
      BelongsSplit(node, m.dest[|base|..], mode);
    }
  }

  lemma {:induction false} ForestIsSound(base: seq<Name>, entries: seq<Entry>, mode: Mode, k: nat)
    requires DistinctEntries(entries) && k < |Forest(base, entries, mode)|
    ensures var m := Forest(base, entries, mode)[k];
            && base < m.dest
            && BelongsBelow(entries, m.dest[|base|..], mode)
            && var node := At(Find(entries, m.dest[|base|]).value, m.dest[|base| + 1..], mode).value;
               (m.isDir <==> Children(node, mode).Some?) && (m.broken <==> Broken(node, mode))
    decreases SizeOfEntries(entries), 1, |entries|
  {
    var m := Forest(base, entries, mode)[k];
    var last, init := entries[|entries| - 1], entries[..|entries| - 1];
    var first := LastTree(base, entries, mode);
    if k < |first| {
      TreeIsSound(base + [last.name], last.node, mode, k);
      assert m.dest[|base|] == last.name;
      assert m.dest[|base|..][1..] == m.dest[|base + [last.name]|..] == m.dest[|base| + 1..];
    } else {
      ForestIsSound(base, init, mode, k - |first|);
      FindInInit(entries, m.dest[|base|]);
      assert m.dest[|base|..][0] == m.dest[|base|];
      assert m.dest[|base|..][1..] == m.dest[|base| + 1..];
    }
  }

  lemma {:induction false} FindNames(entries: seq<Entry>, name: Name)
    ensures Find(entries, name).Some? ==> exists i :: 0 <= i < |entries| && entries[i].name == name
  {
    if entries != [] && entries[|entries| - 1].name != name {
      FindNames(entries[..|entries| - 1], name);
    }
  }

  lemma FindInInit(entries: seq<Entry>, name: Name)
    requires DistinctEntries(entries) && entries != []
    requires Find(entries[..|entries| - 1], name).Some?
    ensures Find(entries, name) == Find(entries[..|entries| - 1], name)
  {
    FindNames(entries[..|entries| - 1], name);
  }

  /** Everything: each path that belongs is a member. */
  lemma {:induction false} TreeIsComplete(base: seq<Name>, node: Node, mode: Mode, rel: seq<Name>) returns (k: nat)
    requires WellFormed(node) && Belongs(node, rel, mode)
    ensures k < |Tree(base, node, mode)| && Tree(base, node, mode)[k].dest == base + rel
    decreases Size(node), 0
  {
    if rel == [] {
      assert base + rel == base;
      k := 0;
    } else {
      BelongsSplit(node, rel, mode);
      ChildrenWellFormed(node, mode);
      k := ForestIsComplete(base, Children(node, mode).value, mode, rel);
      k := k + 1;
    }
  }

  lemma {:induction false} ForestIsComplete(base: seq<Name>, entries: seq<Entry>, mode: Mode, rel: seq<Name>) returns (k: nat)
    requires DistinctEntries(entries) && BelongsBelow(entries, rel, mode)
    ensures k < |Forest(base, entries, mode)| && Forest(base, entries, mode)[k].dest == base + rel
    decreases SizeOfEntries(entries), 1, |entries|
  {
    var last, init := entries[|entries| - 1], entries[..|entries| - 1];
    var first := LastTree(base, entries, mode);
    if last.name == rel[0] {
      k := TreeIsComplete(base + [last.name], last.node, mode, rel[1..]);
      assert base + [last.name] + rel[1..] == base + rel;
    } else {
      k := ForestIsComplete(base, init, mode, rel);
      k := k + |first|;
    }
  }

  lemma TreeBelow(base: seq<Name>, node: Node, mode: Mode, k: nat)
    requires 0 < k < |Tree(base, node, mode)|
    ensures Children(node, mode).Some?
    ensures |Tree(base, node, mode)| == 1 + |Forest(base, Children(node, mode).value, mode)|
    ensures Tree(base, node, mode)[k] == Forest(base, Children(node, mode).value, mode)[k - 1]
  {
  }

  lemma TreeRoot(base: seq<Name>, node: Node, mode: Mode)
    ensures |Tree(base, node, mode)| > 0 && Tree(base, node, mode)[0].dest == base
  {
  }

  /** The tree of the last entry, unless that is skipped. */
  function LastTree(base: seq<Name>, entries: seq<Entry>, mode: Mode): seq<Member>
    requires entries != []
  {
    var last := entries[|entries| - 1];
    if Skipped(last.name, mode) then [] else Tree(base + [last.name], last.node, mode)
  }

  lemma ForestAt(base: seq<Name>, entries: seq<Entry>, mode: Mode, k: nat)
    requires k < |Forest(base, entries, mode)|
    ensures entries != []
    ensures var first, rest := LastTree(base, entries, mode), Forest(base, entries[..|entries| - 1], mode);
            if k < |first| then Forest(base, entries, mode)[k] == first[k]
            else k - |first| < |rest| && Forest(base, entries, mode)[k] == rest[k - |first|]
  {
  }

  /** No member repeats, and none comes after something it contains. */
  lemma {:induction false} TreeIsOrdered(base: seq<Name>, node: Node, mode: Mode, i: nat, j: nat)
    requires WellFormed(node) && i < j < |Tree(base, node, mode)|
    ensures !(Tree(base, node, mode)[j].dest <= Tree(base, node, mode)[i].dest)
    decreases Size(node), 0
  {
    hide Tree, Forest, BelongsBelow, At;
    TreeBelow(base, node, mode, j);
    TreeRoot(base, node, mode);
    ChildrenWellFormed(node, mode);
    var entries := Children(node, mode).value;
    if i > 0 {
      TreeBelow(base, node, mode, i);
      ForestIsOrdered(base, entries, mode, i - 1, j - 1);
    } else {
      ForestIsSound(base, entries, mode, j - 1);
    }
  }

  /** Members below the last entry and below another one differ in the component that names the entry. */
  lemma OtherBranch(base: seq<Name>, entries: seq<Entry>, mode: Mode, i: nat, j: nat)
    requires DistinctEntries(entries) && entries != []
    requires var last := entries[|entries| - 1]; i < |Tree(base + [last.name], last.node, mode)|
    requires j < |Forest(base, entries[..|entries| - 1], mode)|
    ensures var last := entries[|entries| - 1];
            !(Forest(base, entries[..|entries| - 1], mode)[j].dest <= Tree(base + [last.name], last.node, mode)[i].dest)
  {
    hide Tree, Forest, Belongs, At;
    var last, init := entries[|entries| - 1], entries[..|entries| - 1];
    TreeIsSound(base + [last.name], last.node, mode, i);
    ForestIsSound(base, init, mode, j);
    var above, below := Tree(base + [last.name], last.node, mode)[i].dest, Forest(base, init, mode)[j].dest;
    assert below[|base|..][0] == below[|base|];
    FindNames(init, below[|base|]);
    assert above[|base|] == last.name;
  }

  lemma DistinctInit(entries: seq<Entry>)
    requires DistinctEntries(entries) && entries != []
    ensures DistinctEntries(entries[..|entries| - 1]) && WellFormed(entries[|entries| - 1].node)
  {
  }

  lemma {:induction false} ForestIsOrdered(base: seq<Name>, entries: seq<Entry>, mode: Mode, i: nat, j: nat)
    requires DistinctEntries(entries) && i < j < |Forest(base, entries, mode)|
    ensures !(Forest(base, entries, mode)[j].dest <= Forest(base, entries, mode)[i].dest)
    decreases SizeOfEntries(entries), 1, |entries|
  {
    hide Tree, Forest;
    ForestAt(base, entries, mode, i);
    ForestAt(base, entries, mode, j);
    DistinctInit(entries);
    var last, init := entries[|entries| - 1], entries[..|entries| - 1];
    var first := LastTree(base, entries, mode);
    if j < |first| {
      TreeIsOrdered(base + [last.name], last.node, mode, i, j);
    } else if |first| <= i {
      ForestIsOrdered(base, init, mode, i - |first|, j - |first|);
    } else {
      OtherBranch(base, entries, mode, i, j - |first|);
    }
  }

  // ----- The archive -----

  /** Some path that belongs ends in a dangling link. */
  ghost predicate HasDanglingLink(root: seq<Entry>, mode: Mode) {
    exists rel :: EndsDangling(root, rel, mode)
  }

  ghost predicate EndsDangling(root: seq<Entry>, rel: seq<Name>, mode: Mode) {
    Belongs(Dir(root), rel, mode) && Dangling(At(Dir(root), rel, mode).value)
  }

  lemma UnbrokenIff(path: seq<Name>, root: seq<Entry>, mode: Mode)
    requires DistinctEntries(root)
    ensures Unbroken(Tree(path, Dir(root), mode)) <==> !mode.followSymlinks || !HasDanglingLink(root, mode)
  {
    var tree := Tree(path, Dir(root), mode);
    if mode.followSymlinks && HasDanglingLink(root, mode) {
      var rel :| EndsDangling(root, rel, mode);
      var k := TreeIsComplete(path, Dir(root), mode, rel);
      TreeIsSound(path, Dir(root), mode, k);
      assert tree[k].dest[|path|..] == rel;
      assert tree[k].broken;
    } else {
      forall k | 0 <= k < |tree|
        ensures !tree[k].broken
      {
        TreeIsSound(path, Dir(root), mode, k);
        assert EndsDangling(root, tree[k].dest[|path|..], mode) <==> Dangling(At(Dir(root), tree[k].dest[|path|..], mode).value);
      }
    }
  }

  /** A member of the archive is the member of the traversal at the same place. */
  lemma ArchiveAt(path: seq<Name>, root: seq<Entry>, mode: Mode, k: nat)
    requires k < |ArchiveOf(path, root, mode)|
    ensures var tree, i := Tree(path, Dir(root), mode), if path == [] then k + 1 else k;
            i < |tree| && ArchiveOf(path, root, mode)[k] == tree[i] && !tree[i].broken
  {
    WrittenIsPrefix(Tree(path, Dir(root), mode));
  }

  /**
   * The archive is always an initial part of the recursive traversal, and all of it exactly when links are kept
   * as links or no path that belongs ends in a dangling one; else it stops right before such a path.
   */
  lemma ArchiveIsPrefix(path: seq<Name>, root: seq<Entry>, mode: Mode)
    requires DistinctEntries(root)
    ensures var archive, whole := ArchiveOf(path, root, mode), Named(path, Tree(path, Dir(root), mode));
            && archive <= whole
            && (archive == whole <==> !mode.followSymlinks || !HasDanglingLink(root, mode))
            && (archive != whole ==> path <= whole[|archive|].dest
                                     && EndsDangling(root, whole[|archive|].dest[|path|..], mode))
  {
    hide Tree;
    var tree := Tree(path, Dir(root), mode);
    UnbrokenIff(path, root, mode);
    WrittenIsPrefix(tree);
    TreeRoot(path, Dir(root), mode);
    if Written(tree) != tree {
      TreeIsSound(path, Dir(root), mode, |Written(tree)|);
    }
  }

  ghost predicate Holds(archive: seq<Member>, dest: seq<Name>) {
    exists k :: 0 <= k < |archive| && archive[k].dest == dest
  }

  /** Every path below the root that belongs is written, exactly when no link is followed that leads to nothing. */
  lemma ArchiveHasEverything(path: seq<Name>, root: seq<Entry>, mode: Mode)
    requires DistinctEntries(root)
    ensures (forall rel | Belongs(Dir(root), rel, mode) && path + rel != [] :: Holds(ArchiveOf(path, root, mode), path + rel))
       <==> !mode.followSymlinks || !HasDanglingLink(root, mode)
  {
    hide Belongs, At;
    var archive := ArchiveOf(path, root, mode);
    UnbrokenIff(path, root, mode);
    WrittenIsPrefix(Tree(path, Dir(root), mode));
    if mode.followSymlinks && HasDanglingLink(root, mode) {
      var rel :| EndsDangling(root, rel, mode);
      DanglingIsMissing(path, root, mode, rel);
    } else {
      forall rel | Belongs(Dir(root), rel, mode) && path + rel != []
        ensures Holds(archive, path + rel)
      {
        var k := TreeIsComplete(path, Dir(root), mode, rel);
        assert archive[if path == [] then k - 1 else k].dest == path + rel;
      }
    }
  }

  lemma DanglingIsMissing(path: seq<Name>, root: seq<Entry>, mode: Mode, rel: seq<Name>)
    requires DistinctEntries(root) && mode.followSymlinks && EndsDangling(root, rel, mode)
    ensures path + rel != [] && !Holds(ArchiveOf(path, root, mode), path + rel)
  {
    var archive := ArchiveOf(path, root, mode);
    assert rel != [];
    forall k | 0 <= k < |archive|
      ensures archive[k].dest != path + rel
    {
      ArchiveAt(path, root, mode, k);
      TreeIsSound(path, Dir(root), mode, if path == [] then k + 1 else k);
      assert (path + rel)[|path|..] == rel;
    }
  }

  /** A dangling link costs the archive itself and all that would have followed; as a link it costs nothing. */
  lemma DanglingLinkEndsArchive(dir: Name, file: Name, link: Name)
    requires file != link && !Skipped(file, Mode(false, true)) && !Skipped(link, Mode(false, true))
    ensures var root := [Entry(file, File), Entry(link, Symlink(None))];
            && DistinctEntries(root)
            && ArchiveOf([dir], root, Mode(true, true)) == [Member([dir], true, false)]
            && ArchiveOf([dir], root, Mode(false, true))
               == [Member([dir], true, false), Member([dir, link], false, false), Member([dir, file], false, false)]
  {
    var root := [Entry(file, File), Entry(link, Symlink(None))];
    assert root[..1] == [root[0]] && root[..1][..0] == [];
    forall mode: Mode | mode.ignoreHidden
      ensures Tree([dir], Dir(root), mode) == [Member([dir], true, false), Member([dir, link], false, mode.followSymlinks), Member([dir, file], false, false)]
    {
      assert [dir] + [link] == [dir, link] && [dir] + [file] == [dir, file];
      assert Tree([dir] + [link], Symlink(None), mode) == [Member([dir, link], false, mode.followSymlinks)];
      assert Tree([dir] + [file], File, mode) == [Member([dir, file], false, false)];
      assert Forest([dir], root[..1], mode) == [Member([dir, file], false, false)] + Forest([dir], [], mode);
      assert Forest([dir], root, mode) == [Member([dir, link], false, mode.followSymlinks)] + Forest([dir], root[..1], mode);
    }
    var kept := Tree([dir], Dir(root), Mode(false, true));
    assert Unbroken(kept);
    WrittenIsPrefix(kept);
    var broken := Tree([dir], Dir(root), Mode(true, true));
    WrittenUpTo([broken[0]], broken[1..]);
    assert [broken[0]] + broken[1..] == broken;
  }

  /**
   * Nothing else is written: each member is a path that belongs and does not dangle where links are followed, and
   * is a directory exactly when the traversal descends into it.
   */
  lemma ArchiveHasNothingElse(path: seq<Name>, root: seq<Entry>, mode: Mode, k: nat)
    requires DistinctEntries(root) && k < |ArchiveOf(path, root, mode)|
    ensures var m := ArchiveOf(path, root, mode)[k];
            && path <= m.dest && m.dest != []
            && var rel := m.dest[|path|..];
               && Belongs(Dir(root), rel, mode) && !Broken(At(Dir(root), rel, mode).value, mode)
               && (m.isDir <==> Children(At(Dir(root), rel, mode).value, mode).Some?)
  {
    ArchiveAt(path, root, mode, k);
    TreeIsSound(path, Dir(root), mode, if path == [] then k + 1 else k);
  }

  /** No path is written twice, and every directory is written before all it contains. */
  lemma ArchiveIsOrdered(path: seq<Name>, root: seq<Entry>, mode: Mode, i: nat, j: nat)
    requires DistinctEntries(root) && i < j < |ArchiveOf(path, root, mode)|
    ensures !(ArchiveOf(path, root, mode)[j].dest <= ArchiveOf(path, root, mode)[i].dest)
  {
    hide Tree, Written;
    ArchiveAt(path, root, mode, i);
    ArchiveAt(path, root, mode, j);
    var shift := if path == [] then 1 else 0;
    TreeIsOrdered(path, Dir(root), mode, i + shift, j + shift);
  }

  // ----- The archive, told by the tree alone -----

  /** The path `rel` leads to `goal`: through entries of directories, and through links if these are followed. */
  ghost predicate Leads(node: Node, rel: seq<Name>, follow: bool, goal: Node)
    decreases |rel|, node
  {
    if rel == [] then goal == node
    else
      match node
      case File => false
      case Dir(entries) => exists e <- entries :: e.name == rel[0] && Leads(e.node, rel[1..], follow, goal)
      case Symlink(target) => follow && target.Some? && Leads(target.value, rel, follow, goal)
  }

  lemma {:induction false} FindIs(entries: seq<Entry>, e: Entry)
    requires DistinctEntries(entries) && e in entries
    ensures Find(entries, e.name) == Some(e.node)
  {
    var last, init := entries[|entries| - 1], entries[..|entries| - 1];
    if e != last {
      DistinctInit(entries);
      FindIs(init, e);
      FindInInit(entries, e.name);
    }
  }

  lemma {:induction false} FindGives(entries: seq<Entry>, name: Name) returns (e: Entry)
    requires Find(entries, name).Some?
    ensures e in entries && e.name == name && e.node == Find(entries, name).value
  {
    if entries[|entries| - 1].name == name {
      e := entries[|entries| - 1];
    } else {
      e := FindGives(entries[..|entries| - 1], name);
    }
  }

  /** The two ways of walking a tree agree. */
  lemma {:induction false} LeadsIffAt(node: Node, rel: seq<Name>, mode: Mode, goal: Node)
    requires WellFormed(node)
    ensures Leads(node, rel, mode.followSymlinks, goal) <==> At(node, rel, mode) == Some(goal)
    decreases |rel|, node
  {
    if rel != [] {
      match node
      case File =>
      case Dir(entries) =>
        assert Children(node, mode) == Some(entries);
        if Leads(node, rel, mode.followSymlinks, goal) {
          var e :| e in entries && e.name == rel[0] && Leads(e.node, rel[1..], mode.followSymlinks, goal);
          FindIs(entries, e);
          LeadsIffAt(e.node, rel[1..], mode, goal);
        }
        if At(node, rel, mode) == Some(goal) {
          var e := FindGives(entries, rel[0]);
          LeadsIffAt(e.node, rel[1..], mode, goal);
        }
      case Symlink(target) =>
        if mode.followSymlinks && target.Some? {
          LeadsIffAt(target.value, rel, mode, goal);
          assert Children(node, mode) == Children(target.value, mode) by { ChildrenThroughLink(target.value, mode); }
        }
    }
  }

  lemma ChildrenThroughLink(target: Node, mode: Mode)
    requires mode.followSymlinks
    ensures Children(Symlink(Some(target)), mode) == Children(target, mode)
  {
  }

  /** No component starts with a dot, if such names are to be ignored. */
  ghost predicate NothingHidden(rel: seq<Name>, mode: Mode) {
    mode.ignoreHidden ==> forall i | 0 <= i < |rel| && rel[i] != [] :: rel[i][0] != 0x2E
  }

  /** A link that is to be followed leads nowhere, at a path without ignored names. */
  ghost predicate BrokenAt(root: seq<Entry>, rel: seq<Name>, mode: Mode, link: Node) {
    && mode.followSymlinks && NothingHidden(rel, mode) && Leads(Dir(root), rel, true, link)
    && link.Symlink? && !Arrives(link)
  }

  /** The end of a chain of links is a file or a directory. */
  ghost predicate Arrives(node: Node) {
    match node
    case File => true
    case Dir(_) => true
    case Symlink(target) => target.Some? && Arrives(target.value)
  }

  /** The end of a chain of links is a directory. */
  ghost predicate ArrivesAtDirectory(node: Node) {
    match node
    case File => false
    case Dir(_) => true
    case Symlink(target) => target.Some? && ArrivesAtDirectory(target.value)
  }

  lemma {:induction false} ArrivalsOf(node: Node)
    ensures Arrives(node) <==> !Dangling(node)
    ensures ArrivesAtDirectory(node) <==> ReadDir(node).Some?
  {
    if node.Symlink? && node.target.Some? {
      ArrivalsOf(node.target.value);
    }
  }

  lemma BelongsIff(root: seq<Entry>, rel: seq<Name>, mode: Mode)
    requires DistinctEntries(root)
    ensures Belongs(Dir(root), rel, mode) <==> NothingHidden(rel, mode) && exists node :: Leads(Dir(root), rel, mode.followSymlinks, node)
    ensures Belongs(Dir(root), rel, mode) ==> Leads(Dir(root), rel, mode.followSymlinks, At(Dir(root), rel, mode).value)
  {
    hide Leads;
    assert forall i | 0 <= i < |rel| :: rel[i] in rel;
    if NothingHidden(rel, mode) {
      assert forall n <- rel :: !Skipped(n, mode);
    } else {
      var i :| 0 <= i < |rel| && rel[i] != [] && rel[i][0] == 0x2E;
      assert Skipped(rel[i], mode);
    }
    if At(Dir(root), rel, mode).Some? {
      LeadsIffAt(Dir(root), rel, mode, At(Dir(root), rel, mode).value);
    }
    forall node | Leads(Dir(root), rel, mode.followSymlinks, node)
      ensures At(Dir(root), rel, mode) == Some(node)
    {
      LeadsIffAt(Dir(root), rel, mode, node);
    }
  }

  /**
   * Every member stands for a node its path leads to, through directories only unless links are followed; no name
   * of it is to be ignored; it is a directory iff it is one, or a followed link that arrives at one.
   */
  lemma MembersLead(path: seq<Name>, root: seq<Entry>, mode: Mode, k: nat) returns (node: Node)
    requires DistinctEntries(root) && k < |ArchiveOf(path, root, mode)|
    ensures var m := ArchiveOf(path, root, mode)[k];
            && path <= m.dest && m.dest != []
            && NothingHidden(m.dest[|path|..], mode)
            && Leads(Dir(root), m.dest[|path|..], mode.followSymlinks, node)
            && (mode.followSymlinks ==> Arrives(node))
            && (m.isDir <==> node.Dir? || (node.Symlink? && mode.followSymlinks && ArrivesAtDirectory(node)))
  {
    hide Leads;
    ArchiveHasNothingElse(path, root, mode, k);
    var rel := ArchiveOf(path, root, mode)[k].dest[|path|..];
    node := At(Dir(root), rel, mode).value;
    BelongsIff(root, rel, mode);
    ArrivalsOf(node);
  }

  /** Where links are not followed, every path to a node leads through directories only. */
  lemma {:induction false} NothingBelowLinks(node: Node, rel: seq<Name>, goal: Node, i: nat)
    requires Leads(node, rel, false, goal) && i < |rel|
    ensures exists dir: Node :: dir.Dir? && Leads(node, rel[..i], false, dir)
    decreases |rel|
  {
    assert node.Dir?;
    if i == 0 {
      assert Leads(node, rel[..0], false, node);
    } else {
      var e :| e in node.entries && e.name == rel[0] && Leads(e.node, rel[1..], false, goal);
      NothingBelowLinks(e.node, rel[1..], goal, i - 1);
      var dir: Node :| dir.Dir? && Leads(e.node, rel[1..][..i - 1], false, dir);
      assert rel[..i][1..] == rel[1..][..i - 1] && rel[..i][0] == rel[0];
      assert Leads(node, rel[..i], false, dir);
    }
  }

  lemma DanglingIsBroken(root: seq<Entry>, rel: seq<Name>, mode: Mode)
    requires DistinctEntries(root) && mode.followSymlinks && EndsDangling(root, rel, mode)
    ensures exists link :: BrokenAt(root, rel, mode, link)
  {
    hide Leads, NothingHidden, At;
    BelongsIff(root, rel, mode);
    var link := At(Dir(root), rel, mode).value;
    ArrivalsOf(link);
    assert BrokenAt(root, rel, mode, link);
  }

  /**
   * The archive is exactly this: the paths that lead somewhere, without ignored names; provided that no link
   * to be followed on such a path leads nowhere.
   */
  lemma ArchiveIsExactly(path: seq<Name>, root: seq<Entry>, mode: Mode, rel: seq<Name>)
    requires DistinctEntries(root) && path + rel != []
    requires forall r, link :: !BrokenAt(root, r, mode, link)
    ensures Holds(ArchiveOf(path, root, mode), path + rel)
       <==> NothingHidden(rel, mode) && exists node :: Leads(Dir(root), rel, mode.followSymlinks, node)
  {
    hide Leads, At, ArchiveOf, NothingHidden;
    if mode.followSymlinks && HasDanglingLink(root, mode) {
      var r :| EndsDangling(root, r, mode);
      DanglingIsBroken(root, r, mode);
    }
    ArchiveHasEverything(path, root, mode);
    BelongsIff(root, rel, mode);
    if Holds(ArchiveOf(path, root, mode), path + rel) {
      var k :| 0 <= k < |ArchiveOf(path, root, mode)| && ArchiveOf(path, root, mode)[k].dest == path + rel;
      var node := MembersLead(path, root, mode, k);
      assert (path + rel)[|path|..] == rel;
    }
  }
}
