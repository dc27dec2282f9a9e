/** The virtual file system of vfs.cpp: path resolution loops, making directories and
    mounting, updating the node table in place. */
module Vfs {
  import opened Options
  import opened Paths

  // ---------------------------------------------------------------------------
  // Making a directory

  /** The name a node keeps: its field holds NAME_MAX characters. */
  function Kept(name: string): string {
    if |name| <= NAME_MAX then name else name[..NAME_MAX]
  }

  /** dir_open as mkdir uses it: the node itself for ".", its parent for "..". */
  function OpenEntry(fs: Fs, p: nat, name: string): Option<nat>
    requires Paths.Valid(fs) && p < |fs.nodes|
  {
    if name == "." then Some(p) else if name == ".." then Some(ParentOf(fs, p))
    else FindChild(fs.nodes, fs.nodes[p].children, name)
  }

  predicate CanMkdir(fs: Fs, p: nat, name: string)
    requires Paths.Valid(fs) && p < |fs.nodes|
  {
    fs.nodes[p].isDir && (fs.nodes[p].opens ==> OpenEntry(fs, p, name).None?)
  }

  /** The new node is the last in the table and the first child of its parent. */
  function Mkdir(fs: Fs, p: nat, name: string): Fs
    requires p < |fs.nodes|
  {
    var n, d := |fs.nodes|, fs.nodes[p];
    fs.(nodes := fs.nodes[p := d.(children := [n] + d.children)] + [Node(Kept(name), true, d.opens, Some(p), [])])
  }

  lemma MkdirValid(fs: Fs, p: nat, name: string)
    requires Paths.Valid(fs) && p < |fs.nodes|
    ensures Paths.Valid(Mkdir(fs, p, name)) && |Mkdir(fs, p, name).nodes| == |fs.nodes| + 1
  {
  }

  /** Looking among old children gives the same in a longer node table. */
  lemma {:induction false} FindChildSame(nodes: seq<Node>, nodes': seq<Node>, children: seq<nat>, name: string)
    requires |nodes| <= |nodes'| && forall i :: 0 <= i < |nodes| ==> nodes'[i].name == nodes[i].name
    requires forall i :: 0 <= i < |children| ==> children[i] < |nodes|
    ensures FindChild(nodes', children, name) == FindChild(nodes, children, name)
  {
    if children != [] {
      FindChildSame(nodes, nodes', children[1..], name);
    }
  }

  /** The kept name is already a child's: the new node would come before it. */
  ghost predicate Shadows(fs: Fs, p: nat, name: string)
    requires Paths.Valid(fs) && p < |fs.nodes|
  {
    fs.nodes[p].opens && FindChild(fs.nodes, fs.nodes[p].children, Kept(name)).Some?
  }

  /** A step that succeeded before still leads to the same node. */
  lemma StepSame(fs: Fs, p: nat, name: string, n: nat, c: string)
    requires Paths.Valid(fs) && p < |fs.nodes| && n < |fs.nodes| && CanMkdir(fs, p, name)
    requires Step(fs, n, c).Some? && (Shadows(fs, p, name) ==> c != Kept(name))
    ensures Paths.Valid(Mkdir(fs, p, name)) && Step(Mkdir(fs, p, name), n, c) == Step(fs, n, c)
  {
    MkdirValid(fs, p, name);
    var fs' := Mkdir(fs, p, name);
    if c != "." && c != ".." {
      FindChildSame(fs.nodes, fs'.nodes, fs.nodes[n].children, c);
      if n == p {
        assert fs'.nodes[p].children[1..] == fs.nodes[p].children;
      }
    }
  }

  lemma {:induction false} ResolveSame(fs: Fs, p: nat, name: string, n: nat, names: seq<string>)
    requires Paths.Valid(fs) && p < |fs.nodes| && n < |fs.nodes| && CanMkdir(fs, p, name)
    requires Resolve(fs, n, names).Some? && (Shadows(fs, p, name) ==> Kept(name) !in names)
    ensures Paths.Valid(Mkdir(fs, p, name)) && Resolve(Mkdir(fs, p, name), n, names) == Resolve(fs, n, names)
    decreases |names|
  {
    hide Step, Mkdir;
    MkdirValid(fs, p, name);
    if names != [] {
      StepSame(fs, p, name, n, names[0]);
      ResolveSame(fs, p, name, Step(fs, n, names[0]).value, names[1..]);
    }
  }

  /** No path that resolves is changed. */
  ghost predicate Transparent(fs: Fs, fs': Fs)
    requires Paths.Valid(fs) && Paths.Valid(fs') && |fs.nodes| <= |fs'.nodes|
  {
    forall n, path :: 0 <= n < |fs.nodes| && Resolve(fs, n, Tokens(path)).Some? ==>
      Resolve(fs', n, Tokens(path)) == Resolve(fs, n, Tokens(path))
  }

  /** Making a directory changes no path that already resolves, exactly when the name
      it keeps is not already a child's or has a slash, which no component has. */
  lemma MkdirExactly(fs: Fs, p: nat, name: string)
    requires Paths.Valid(fs) && p < |fs.nodes| && CanMkdir(fs, p, name)
    ensures Paths.Valid(Mkdir(fs, p, name)) && |Mkdir(fs, p, name).nodes| == |fs.nodes| + 1
    ensures Transparent(fs, Mkdir(fs, p, name)) <==> !Shadows(fs, p, name) || '/' in Kept(name)
  {
    hide Resolve, Tokens, Shadows, Mkdir;
    MkdirValid(fs, p, name);
    var fs' := Mkdir(fs, p, name);
    if Shadows(fs, p, name) && '/' !in Kept(name) {
      ShadowedChild(fs, p, name);
      OneToken(Kept(name));
    } else {
      forall n, path | 0 <= n < |fs.nodes| && Resolve(fs, n, Tokens(path)).Some?
        ensures Resolve(fs', n, Tokens(path)) == Resolve(fs, n, Tokens(path))
      {
        NoSlashes(path);
        ResolveSame(fs, p, name, n, Tokens(path));
      }
    }
  }

  /** A name that fits is never shadowing. */
  lemma ShortNamesSafe(fs: Fs, p: nat, name: string)
    requires Paths.Valid(fs) && p < |fs.nodes| && CanMkdir(fs, p, name) && |name| <= NAME_MAX
    ensures !Shadows(fs, p, name)
  {
  }

  /** When it shadows, the kept name resolved to the old child before and to the new
      directory after. */
  lemma ShadowedChild(fs: Fs, p: nat, name: string)
    requires Paths.Valid(fs) && p < |fs.nodes| && CanMkdir(fs, p, name) && Shadows(fs, p, name)
    ensures Paths.Valid(Mkdir(fs, p, name))
    ensures |Kept(name)| == NAME_MAX
    ensures var names := [Kept(name)];
      && Resolve(fs, p, names).Some?
      && Resolve(Mkdir(fs, p, name), p, names) == Some(|fs.nodes|) != Resolve(fs, p, names)
  {
    MkdirValid(fs, p, name);
    var fs', c := Mkdir(fs, p, name), Kept(name);
    assert |name| > NAME_MAX && |c| == NAME_MAX;
    assert fs'.nodes[fs'.nodes[p].children[0]].name == c;
    NotCovered(fs.mounts, |fs.nodes|);
    assert Step(fs, p, c).Some? && Step(fs', p, c) == Some(|fs.nodes|);
    OneStep(fs, p, c);
    OneStep(fs', p, c);
  }

  /** In a directory that can be looked into, the new one is found under the name it keeps,
      leads back up, and is empty; one made in it is found below it. */
  lemma MkdirVisible(fs: Fs, p: nat, name: string, below: string)
    requires Paths.Valid(fs) && p < |fs.nodes| && CanMkdir(fs, p, name) && fs.nodes[p].opens
    requires below != "." && below != ".."
    ensures var fs', n := Mkdir(fs, p, name), |fs.nodes|;
      && Paths.Valid(fs') && n < |fs'.nodes|
      && Resolve(fs', p, [Kept(name)]) == Some(n) && Resolve(fs', n, [".."]) == Some(p)
      && Resolve(fs', n, [below]) == None && CanMkdir(fs', n, below)
      && Paths.Valid(Mkdir(fs', n, below))
      && Resolve(Mkdir(fs', n, below), p, [Kept(name), Kept(below)]) == Some(n + 1)
  {
    hide Mkdir, Resolve;
    MkdirValid(fs, p, name);
    var fs', n := Mkdir(fs, p, name), |fs.nodes|;
    MadeEntry(fs, p, name);
    OneStep(fs', p, Kept(name));
    OneStep(fs', n, "..");
    OneStep(fs', n, below);
    MkdirValid(fs', n, below);
    MadeEntry(fs', n, below);
    MadeBelow(fs', n, below, p, Kept(name));
  }

  /** The new entry of an open directory, and what the new directory is. */
  lemma MadeEntry(fs: Fs, p: nat, name: string)
    requires Paths.Valid(fs) && p < |fs.nodes| && CanMkdir(fs, p, name) && fs.nodes[p].opens
    ensures var fs', n := Mkdir(fs, p, name), |fs.nodes|;
      && Paths.Valid(fs') && n < |fs'.nodes| && Step(fs', p, Kept(name)) == Some(n) && Step(fs', n, "..") == Some(p)
      && fs'.nodes[n].isDir && fs'.nodes[n].opens && fs'.nodes[n].children == []
  {
    MkdirValid(fs, p, name);
    var fs', n, c := Mkdir(fs, p, name), |fs.nodes|, Kept(name);
    assert c != "." && c != "..";
    assert fs'.nodes[p].children[0] == n && fs'.nodes[n].name == c;
    NotCovered(fs.mounts, n);
  }

  /** A directory made in n is found below any entry that leads to n. */
  lemma MadeBelow(fs: Fs, n: nat, below: string, p: nat, name: string)
    requires Paths.Valid(fs) && n < |fs.nodes| && p < |fs.nodes| && p != n && CanMkdir(fs, n, below)
    requires fs.nodes[n].opens && Step(fs, p, name) == Some(n)
    ensures Paths.Valid(Mkdir(fs, n, below))
    ensures Resolve(Mkdir(fs, n, below), p, [name, Kept(below)]) == Some(|fs.nodes|)
  {
    hide Mkdir, Step;
    MkdirValid(fs, n, below);
    var fs' := Mkdir(fs, n, below);
    MadeEntry(fs, n, below);
    StepElsewhere(fs, n, below, p, name);
    assert [name, Kept(below)][1..] == [Kept(below)];
    OneStep(fs', n, Kept(below));
  }

  lemma StepElsewhere(fs: Fs, n: nat, below: string, p: nat, name: string)
    requires Paths.Valid(fs) && n < |fs.nodes| && p < |fs.nodes| && p != n && Step(fs, p, name).Some?
    ensures Paths.Valid(Mkdir(fs, n, below)) && Step(Mkdir(fs, n, below), p, name) == Step(fs, p, name)
  {
    MkdirValid(fs, n, below);
    FindChildSame(fs.nodes, Mkdir(fs, n, below).nodes, fs.nodes[p].children, name);
  }

  lemma OneStep(fs: Fs, n: nat, name: string)
    requires Paths.Valid(fs) && n < |fs.nodes|
    ensures Resolve(fs, n, [name]) == Step(fs, n, name)
  {
    hide Step;
    assert [name][1..] == [];
  }

  lemma {:induction false} NotCovered(mounts: seq<Mount>, n: nat)
    requires forall m :: 0 <= m < |mounts| ==> mounts[m].point != n
    ensures MountOf(mounts, n) == n
  {
    if mounts != [] {
      NotCovered(mounts[1..], n);
    }
  }

  // ---------------------------------------------------------------------------
  // Mounting

  function MountAt(fs: Fs, point: nat, top: nat): Fs
    requires top < |fs.nodes|
  {
    Fs(fs.nodes[top := fs.nodes[top].(parent := Some(point))], [Mount(point, top)] + fs.mounts)
  }

  lemma MountValid(fs: Fs, point: nat, top: nat)
    requires Paths.Valid(fs) && point < |fs.nodes| && top < |fs.nodes|
    ensures Paths.Valid(MountAt(fs, point, top))
  {
  }

  /** A mount changes exactly this: an entry that names the mount point itself now leads to
      the new root, whatever was mounted there before, and ".." of the new root leads to
      the mount point. */
  lemma MountExactly(fs: Fs, point: nat, top: nat, n: nat, name: string)
    requires Paths.Valid(fs) && point < |fs.nodes| && top < |fs.nodes| && n < |fs.nodes|
    ensures Paths.Valid(MountAt(fs, point, top))
    ensures Step(MountAt(fs, point, top), n, name) ==
      if name == ".." && n == top then Some(point)
      else if name != "." && name != ".." && fs.nodes[n].opens
        && FindChild(fs.nodes, fs.nodes[n].children, name) == Some(point) then Some(top)
      else Step(fs, n, name)
  {
    MountValid(fs, point, top);
    var fs' := MountAt(fs, point, top);
    FindChildSame(fs.nodes, fs'.nodes, fs.nodes[n].children, name);
    assert fs'.mounts[1..] == fs.mounts;
  }

  /** Every child's parent is the directory it is in, and a mounted root's parent is the
      directory it covers. */
  ghost predicate Parented(fs: Fs)
    requires Paths.Valid(fs)
  {
    && (forall n, i :: 0 <= n < |fs.nodes| && 0 <= i < |fs.nodes[n].children| ==>
          fs.nodes[n].children[i] != n && fs.nodes[fs.nodes[n].children[i]].parent == Some(n))
    && (forall m :: 0 <= m < |fs.mounts| ==> fs.nodes[fs.mounts[m].top].parent == Some(fs.mounts[m].point))
  }

  /** A root that is in no directory and mounted nowhere yet. */
  ghost predicate FreshRoot(fs: Fs, top: nat) {
    && (forall n, i :: 0 <= n < |fs.nodes| && 0 <= i < |fs.nodes[n].children| ==> fs.nodes[n].children[i] != top)
    && (forall m :: 0 <= m < |fs.mounts| ==> fs.mounts[m].top != top)
  }

  lemma MkdirParented(fs: Fs, p: nat, name: string)
    requires Paths.Valid(fs) && Parented(fs) && p < |fs.nodes|
    ensures Paths.Valid(Mkdir(fs, p, name)) && Parented(Mkdir(fs, p, name))
  {
    MkdirValid(fs, p, name);
  }

  lemma MountParented(fs: Fs, point: nat, top: nat)
    requires Paths.Valid(fs) && Parented(fs) && FreshRoot(fs, top) && point < |fs.nodes| && top < |fs.nodes|
    ensures Paths.Valid(MountAt(fs, point, top)) && Parented(MountAt(fs, point, top))
  {
    MountValid(fs, point, top);
  }

  /** What covers a node has that node as its parent. */
  lemma {:induction false} CoverParent(fs: Fs, mounts: seq<Mount>, c: nat)
    requires forall m :: 0 <= m < |mounts| ==>
      mounts[m].top < |fs.nodes| && fs.nodes[mounts[m].top].parent == Some(mounts[m].point)
    ensures MountOf(mounts, c) != c ==>
      MountOf(mounts, c) < |fs.nodes| && fs.nodes[MountOf(mounts, c)].parent == Some(c)
  {
    if mounts != [] {
      CoverParent(fs, mounts[1..], c);
    }
  }

  /** Going down to a child and up again leads back exactly when nothing is mounted on the
      child; else it leads to the covered child itself. */
  lemma UpAgain(fs: Fs, n: nat, name: string, c: nat)
    requires Paths.Valid(fs) && Parented(fs) && n < |fs.nodes| && name != "." && name != ".."
    requires fs.nodes[n].opens && FindChild(fs.nodes, fs.nodes[n].children, name) == Some(c)
    ensures Resolve(fs, n, [name, ".."]) == Some(n) <==> MountOf(fs.mounts, c) == c
    ensures Resolve(fs, n, [name, ".."]) == Some(if MountOf(fs.mounts, c) == c then n else c)
  {
    ChildInside(fs.nodes, fs.nodes[n].children, name);
    CoverParent(fs, fs.mounts, c);
    var at := MountOf(fs.mounts, c);
    assert Step(fs, n, name) == Some(at);
    assert [name, ".."][1..] == [".."];
    OneStep(fs, at, "..");
  }

  /** The walk down meets names of children only, none of them covered. */
  ghost predicate Bare(fs: Fs, n: nat, names: seq<string>)
    requires Paths.Valid(fs) && n < |fs.nodes|
    decreases |names|
  {
    names == [] ||
    (&& names[0] != "." && names[0] != ".." && fs.nodes[n].opens
     && var c := FindChild(fs.nodes, fs.nodes[n].children, names[0]);
        c.Some? && c.value < |fs.nodes| && MountOf(fs.mounts, c.value) == c.value && Bare(fs, c.value, names[1..]))
  }

  function Ups(k: nat): seq<string> {
    if k == 0 then [] else Ups(k - 1) + [".."]
  }

  /** Down any number of uncovered children and up as many times leads back. */
  lemma {:induction false} UpAllAgain(fs: Fs, n: nat, names: seq<string>)
    requires Paths.Valid(fs) && Parented(fs) && n < |fs.nodes| && Bare(fs, n, names)
    ensures Resolve(fs, n, names + Ups(|names|)) == Some(n)
    decreases |names|
  {
    if names == [] {
      assert names + Ups(0) == [];
    } else {
      var c, rest, k := FindChild(fs.nodes, fs.nodes[n].children, names[0]).value, names[1..], |names| - 1;
      ChildInside(fs.nodes, fs.nodes[n].children, names[0]);
      assert Step(fs, n, names[0]) == Some(c);
      UpAllAgain(fs, c, rest);
      ResolveAppend(fs, c, rest + Ups(k), [".."]);
      OneStep(fs, c, "..");
      assert (names + Ups(k + 1))[1..] == (rest + Ups(k)) + [".."];
    }
  }

  // ---------------------------------------------------------------------------
  // Nodes of their own

  /** create_node, and the operations the caller gives the node. */
  function Created(fs: Fs, name: string, isDir: bool, opens: bool): (fs': Fs)
    ensures |fs'.nodes| == |fs.nodes| + 1
  {
    fs.(nodes := fs.nodes + [Node(Kept(name), isDir, opens, None, [])])
  }

  /** dir_add_child */
  function Attached(fs: Fs, p: nat, c: nat): (fs': Fs)
    requires p < |fs.nodes| && c < |fs.nodes|
    ensures |fs'.nodes| == |fs.nodes|
  {
    var nodes := fs.nodes[c := fs.nodes[c].(parent := Some(p))];
    fs.(nodes := nodes[p := nodes[p].(children := [c] + nodes[p].children)])
  }

  lemma CreatedParented(fs: Fs, name: string, isDir: bool, opens: bool)
    requires Paths.Valid(fs)
    ensures Paths.Valid(Created(fs, name, isDir, opens)) && FreshRoot(Created(fs, name, isDir, opens), |fs.nodes|)
    ensures Parented(fs) ==> Parented(Created(fs, name, isDir, opens))
  {
  }

  lemma AttachedNodes(fs: Fs, p: nat, c: nat, n: nat)
    requires p < |fs.nodes| && c < |fs.nodes| && n < |fs.nodes|
    ensures Attached(fs, p, c).nodes[n].children == (if n == p then [c] else []) + fs.nodes[n].children
    ensures Attached(fs, p, c).nodes[n].parent == if n == c then Some(p) else fs.nodes[n].parent
  {
    assert [] + fs.nodes[n].children == fs.nodes[n].children;
  }

  lemma AttachedParented(fs: Fs, p: nat, c: nat)
    requires Paths.Valid(fs) && p < |fs.nodes| && c < |fs.nodes|
    ensures Paths.Valid(Attached(fs, p, c))
    ensures Parented(fs) && FreshRoot(fs, c) && p != c ==> Parented(Attached(fs, p, c))
  {
    assert Attached(fs, p, c).mounts == fs.mounts;
    hide Attached;
    var fs' := Attached(fs, p, c);
    forall n | 0 <= n < |fs.nodes|
      ensures fs'.nodes[n].children == (if n == p then [c] else []) + fs.nodes[n].children
      ensures fs'.nodes[n].parent == if n == c then Some(p) else fs.nodes[n].parent
    {
      AttachedNodes(fs, p, c, n);
    }
  }

  /** Making a directory is creating a node and adding it. */
  lemma MkdirParts(fs: Fs, p: nat, name: string)
    requires p < |fs.nodes|
    ensures Mkdir(fs, p, name) == Attached(Created(fs, name, true, fs.nodes[p].opens), p, |fs.nodes|)
  {
  }

  /** A device node, as a child of a directory. */
  function WithDevice(fs: Fs, top: nat, name: string): (fs': Fs)
    requires top < |fs.nodes|
    ensures |fs'.nodes| == |fs.nodes| + 1
  {
    Attached(Created(fs, name, false, false), top, |fs.nodes|)
  }

  lemma DeviceNodes(fs: Fs, top: nat, name: string)
    requires top < |fs.nodes| && |name| <= NAME_MAX
    ensures WithDevice(fs, top, name) ==
      fs.(nodes := fs.nodes[top := fs.nodes[top].(children := [|fs.nodes|] + fs.nodes[top].children)]
                 + [Node(name, false, false, Some(top), [])])
  {
  }

  /** The tree that vfs_init builds: the root with its directory "dev", and mounted on it
      a directory with four devices. */
  const INITIAL: Fs := Fs([
    Node("/", true, true, Some(0), [1]), Node("dev", true, true, Some(0), []),
    Node("dev", true, true, Some(1), [6, 5, 4, 3]),
    Device("null"), Device("zero"), Device("console"), Device("rtc")], [Mount(1, 2)])

  function Device(name: string): Node {
    Node(name, false, false, Some(2), [])
  }

  lemma InitialParented()
    ensures Paths.Valid(INITIAL) && Parented(INITIAL)
  {
    forall n, i | 0 <= n < 7 && 0 <= i < |INITIAL.nodes[n].children|
      ensures n < INITIAL.nodes[n].children[i] < 7 && INITIAL.nodes[INITIAL.nodes[n].children[i]].parent == Some(n)
    {
      assert n == 0 || n == 2;
    }
  }

  /** The two trees before the devices are made. */
  const ROOTS: Fs := Fs([
    Node("/", true, true, Some(0), [1]), Node("dev", true, true, Some(0), []), Node("dev", true, true, None, [])], [])

  lemma Roots()
    ensures var fs := Created(Fs([Node("/", true, true, Some(0), [])], []), "dev", true, true);
      Created(Attached(fs, 0, 1), "dev", true, true) == ROOTS
  {
    assert [1] + [] == [1];
  }

  lemma FourDevices()
    ensures var fs := WithDevice(WithDevice(ROOTS, 2, "null"), 2, "zero");
      MountAt(WithDevice(WithDevice(fs, 2, "console"), 2, "rtc"), 1, 2) == INITIAL
  {
    hide WithDevice;
    assert [3] + [] == [3] && [4] + [3] == [4, 3] && [5] + [4, 3] == [5, 4, 3] && [6] + [5, 4, 3] == [6, 5, 4, 3];
    DeviceNodes(ROOTS, 2, "null");
    var fs1 := WithDevice(ROOTS, 2, "null");
    assert fs1.nodes == ROOTS.nodes[2 := ROOTS.nodes[2].(children := [3])] + [Device("null")];
    DeviceNodes(fs1, 2, "zero");
    var fs2 := WithDevice(fs1, 2, "zero");
    assert fs2.nodes == ROOTS.nodes[2 := ROOTS.nodes[2].(children := [4, 3])] + [Device("null"), Device("zero")];
    DeviceNodes(fs2, 2, "console");
    var fs3 := WithDevice(fs2, 2, "console");
    assert fs3.nodes == ROOTS.nodes[2 := ROOTS.nodes[2].(children := [5, 4, 3])]
                      + [Device("null"), Device("zero"), Device("console")];
    DeviceNodes(fs3, 2, "rtc");
    var fs4 := WithDevice(fs3, 2, "rtc");
    assert fs4.nodes == ROOTS.nodes[2 := ROOTS.nodes[2].(children := [6, 5, 4, 3])]
                      + [Device("null"), Device("zero"), Device("console"), Device("rtc")];
  }

  // ---------------------------------------------------------------------------
  // The file system

  class FileSystem {
    var nodes: seq<Node>
    var mounts: seq<Mount>
    const root: nat

    ghost function Abs(): Fs
      reads this
    {
      Fs(nodes, mounts)
    }

    ghost predicate Valid()
      reads this
    {
      Paths.Valid(Abs()) && root < |nodes|
    }

    /** An empty root directory that is its own parent. */
    constructor ()
      ensures Valid() && nodes == [Node("/", true, true, Some(0), [])] && mounts == [] && root == 0
      ensures Parented(Abs())
    {
      nodes, mounts, root := [Node("/", true, true, Some(0), [])], [], 0;
    }

    /** The child search of the directory open operations. */
    method DirOpen(n: nat, name: string) returns (r: Option<nat>)
      requires Valid() && n < |nodes|
      ensures r == OpenEntry(Abs(), n, name)
    {
      if name == "." {
        return Some(n);
      }
      if name == ".." {
        return if nodes[n].parent.Some? then nodes[n].parent else Some(n);
      }
      var kids := nodes[n].children;
      var i := 0;
      while i < |kids|
        invariant 0 <= i <= |kids|
        invariant FindChild(nodes, kids[i..], name) == FindChild(nodes, kids, name)
      {
        if nodes[kids[i]].name == name {
          return Some(kids[i]);
        }
        assert kids[i..][1..] == kids[i + 1..];
        i := i + 1;
      }
      return None;
    }

    method MountResolve(n: nat) returns (r: nat)
      ensures r == MountOf(mounts, n)
    {
      var i := 0;
      while i < |mounts|
        invariant 0 <= i <= |mounts| && MountOf(mounts[i..], n) == MountOf(mounts, n)
      {
        if mounts[i].point == n {
          return mounts[i].top;
        }
        assert mounts[i..][1..] == mounts[i + 1..];
        i := i + 1;
      }
      return n;
    }

    /** Read the next component of a path from position pos, which is not at a slash. */
    method NextComponent(path: string, pos: nat) returns (component: string)
      requires pos < |path| && path[pos] != '/'
      ensures component == path[pos..][..RunLength(path[pos..], NAME_MAX)] && component != []
    {
      hide RunLength;
      component := [];
      var i := 0;
      RunStep(path[pos..], NAME_MAX);
      while pos + i < |path| && path[pos + i] != '/' && i < NAME_MAX
        invariant 0 <= i <= NAME_MAX && pos + i <= |path| && component == path[pos..pos + i]
        invariant RunLength(path[pos..], NAME_MAX) == i + RunLength(path[pos + i..], NAME_MAX - i)
      {
        assert path[pos + i..][1..] == path[pos + i + 1..];
        assert path[pos..pos + i] + [path[pos + i]] == path[pos..pos + i + 1];
        RunStep(path[pos + i..], NAME_MAX - i);
        component := component + [path[pos + i]];
        i := i + 1;
      }
      RunStep(path[pos + i..], NAME_MAX - i);
      assert path[pos..][..i] == path[pos..pos + i];
    }

    /** One turn of the resolution loop. */
    method StepTo(n: nat, name: string) returns (r: Option<nat>)
      requires Valid() && n < |nodes|
      ensures r == Step(Abs(), n, name)
    {
      if name == "." {
        return Some(n);
      }
      if name == ".." {
        return if nodes[n].parent.Some? then nodes[n].parent else Some(n);
      }
      if !nodes[n].opens {
        return None;
      }
      var next := DirOpen(n, name);
      if next.None? {
        return None;
      }
      var top := MountResolve(next.value);
      return Some(top);
    }

    /** resolve_path */
    method ResolvePath(base: nat, path: string) returns (r: Option<nat>)
      requires Valid() && base < |nodes|
      ensures r == Resolve(Abs(), base, Tokens(path))
    {
      hide Step, Paths.Valid, RunLength;
      ghost var fs := Abs();
      var current: nat, pos: nat := base, 0;
      assert path[0..] == path;
      while pos < |path|
        invariant 0 <= pos <= |path| && current < |nodes|
        invariant Resolve(fs, current, Tokens(path[pos..])) == Resolve(fs, base, Tokens(path))
        decreases |path| - pos
      {
        if path[pos] == '/' {
          assert path[pos..][1..] == path[pos + 1..];
          pos := pos + 1;
          continue;
        }
        var component := NextComponent(path, pos);
        ghost var rest := path[pos..];
        assert rest[|component|..] == path[pos + |component|..];
        assert Tokens(rest) == [component] + Tokens(path[pos + |component|..]);
        pos := pos + |component|;
        var next := StepTo(current, component);
        if next.None? {
          return None;
        }
        current := next.value;
      }
      return Some(current);
    }

    /** vfs_open: one leading slash is skipped, and both kinds of path start at the root. */
    method Open(path: string) returns (r: Option<nat>)
      requires Valid()
      ensures r == Resolve(Abs(), root, Tokens(path))
    {
      if path != [] && path[0] == '/' {
        r := ResolvePath(root, path[1..]);
      } else {
        r := ResolvePath(root, path);
      }
    }

    /** create_node; memoryOk says whether the node could be allocated. */
    method CreateNode(name: string, isDir: bool, opens: bool, memoryOk: bool) returns (r: Option<nat>)
      requires Valid()
      modifies this
      ensures Valid() && (r.Some? <==> memoryOk)
      ensures r.None? ==> Abs() == old(Abs())
      ensures r.Some? ==>
        && r.value == |old(nodes)| && Abs() == Created(old(Abs()), name, isDir, opens) && FreshRoot(Abs(), r.value)
      ensures old(Parented(Abs())) ==> Parented(Abs())
    {
      if !memoryOk {
        return None;
      }
      CreatedParented(Abs(), name, isDir, opens);
      nodes := nodes + [Node(Kept(name), isDir, opens, None, [])];
      return Some(|nodes| - 1);
    }

    /** dir_add_child */
    method AddChild(p: nat, c: nat)
      requires Valid() && p < |nodes| && c < |nodes|
      modifies this
      ensures Valid() && Abs() == Attached(old(Abs()), p, c)
      ensures old(Parented(Abs()) && FreshRoot(Abs(), c)) && p != c ==> Parented(Abs())
    {
      AttachedParented(Abs(), p, c);
      nodes := nodes[c := nodes[c].(parent := Some(p))];
      nodes := nodes[p := nodes[p].(children := [c] + nodes[p].children)];
    }

    /** vfs_mkdir; memoryOk says whether the node could be allocated. */
    method MakeDir(p: nat, name: string, memoryOk: bool) returns (r: Option<nat>)
      requires Valid() && p < |nodes|
      modifies this
      ensures Valid() && p < |old(nodes)|
      ensures r.Some? <==> memoryOk && CanMkdir(old(Abs()), p, name)
      ensures r.None? ==> Abs() == old(Abs())
      ensures r.Some? ==> r.value == |old(nodes)| && Abs() == Mkdir(old(Abs()), p, name)
      ensures old(Parented(Abs())) ==> Parented(Abs())
    {
      if !nodes[p].isDir {
        return None;
      }
      if nodes[p].opens {
        var existing := DirOpen(p, name);
        if existing.Some? {
          return None;
        }
      }
      MkdirParts(Abs(), p, name);
      r := CreateNode(name, true, nodes[p].opens, memoryOk);
      if r.Some? {
        AddChild(p, r.value);
      }
    }

    /** mount_add; memoryOk says whether the mount entry could be allocated. */
    method MountAdd(point: nat, top: nat, memoryOk: bool) returns (ok: bool)
      requires Valid() && point < |nodes| && top < |nodes|
      modifies this
      ensures Valid() && ok == memoryOk
      ensures Abs() == if ok then MountAt(old(Abs()), point, top) else old(Abs())
      ensures old(Parented(Abs()) && FreshRoot(Abs(), top)) ==> Parented(Abs())
    {
      if !memoryOk {
        return false;
      }
      MountValid(Abs(), point, top);
      if Parented(Abs()) && FreshRoot(Abs(), top) {
        MountParented(Abs(), point, top);
      }
      mounts := [Mount(point, top)] + mounts;
      nodes := nodes[top := nodes[top].(parent := Some(point))];
      ok := true;
    }

    /** make_dev, when memory suffices, and adding the device. */
    method AddDevice(top: nat, name: string)
      requires Valid() && Parented(Abs()) && top < |nodes|
      modifies this
      ensures Valid() && Parented(Abs()) && Abs() == WithDevice(old(Abs()), top, name)
      ensures forall n :: 0 <= n < |old(nodes)| && old(FreshRoot(Abs(), n)) ==> FreshRoot(Abs(), n)
    {
      var device := CreateNode(name, false, false, true);
      AddChild(top, device.value);
    }

    /** vfs_init, when memory suffices. */
    static method Init() returns (fs: FileSystem)
      ensures fresh(fs) && fs.Valid() && fs.root == 0 && fs.Abs() == INITIAL && Parented(fs.Abs())
    {
      hide Parented, FreshRoot, WithDevice, Attached, Created, MountAt;
      fs := new FileSystem();
      var point := fs.CreateNode("dev", true, true, true);
      fs.AddChild(fs.root, point.value);
      var top := fs.CreateNode("dev", true, true, true);
      Roots();
      fs.AddDevice(top.value, "null");
      fs.AddDevice(top.value, "zero");
      fs.AddDevice(top.value, "console");
      fs.AddDevice(top.value, "rtc");
      FourDevices();
      var ok := fs.MountAdd(point.value, top.value, true);
    }
  }
}
