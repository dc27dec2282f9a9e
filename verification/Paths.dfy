/** Path names and name resolution of vfs.cpp on values: splitting a path into
    components, and stepping from node to node. */
module Paths {
  import opened Options

  /** A component buffer, and a node's name field, hold 255 characters. */
  const NAME_MAX: nat := 255

  // ---------------------------------------------------------------------------
  // Components

  /** How many characters the component copy takes: up to a slash, the end or the limit. */
  function RunLength(path: string, limit: nat): (n: nat)
    ensures n <= |path| && n <= limit
    ensures forall i :: 0 <= i < n ==> path[i] != '/'
    ensures n < |path| && n < limit ==> path[n] == '/'
  {
    if path == [] || path[0] == '/' || limit == 0 then 0 else 1 + RunLength(path[1..], limit - 1)
  }

  /** The components resolve_path reads: runs without slashes, cut at the buffer size. */
  function Tokens(path: string): seq<string>
    decreases |path|
  {
    if path == [] then []
    else if path[0] == '/' then Tokens(path[1..])
    else
      var n := RunLength(path, NAME_MAX);
      [path[..n]] + Tokens(path[n..])
  }

  /** Where the first slash is; |path| when there is none. */
  function FirstSlash(path: string): (n: nat)
    ensures n <= |path| && (n < |path| ==> path[n] == '/') && forall i :: 0 <= i < n ==> path[i] != '/'
  {
    if path == [] || path[0] == '/' then 0 else 1 + FirstSlash(path[1..])
  }

  /** The names between slashes, empty ones included. */
  function Fields(path: string): seq<string>
    decreases |path|
  {
    var n := FirstSlash(path);
    if n == |path| then [path] else [path[..n]] + Fields(path[n + 1..])
  }

  function NonEmpty(names: seq<string>): seq<string> {
    if names == [] then [] else (if names[0] == [] then [] else [names[0]]) + NonEmpty(names[1..])
  }

  predicate Short(names: seq<string>) {
    forall i :: 0 <= i < |names| ==> |names[i]| <= NAME_MAX
  }

  lemma {:induction false} TokensShort(path: string)
    ensures Short(Tokens(path))
    decreases |path|
  {
    if path != [] {
      if path[0] == '/' {
        TokensShort(path[1..]);
      } else {
        TokensShort(path[RunLength(path, NAME_MAX)..]);
      }
    }
  }

  lemma {:induction false} RunIsField(path: string, limit: nat)
    requires FirstSlash(path) <= limit
    ensures RunLength(path, limit) == FirstSlash(path)
  {
    if path != [] && path[0] != '/' {
      RunIsField(path[1..], limit - 1);
    }
  }

  /** The components, one at a time. */
  lemma TokensStep(path: string)
    ensures path == [] ==> Tokens(path) == []
    ensures path != [] && path[0] == '/' ==> Tokens(path) == Tokens(path[1..])
    ensures path != [] && path[0] != '/' ==>
      var n := RunLength(path, NAME_MAX);
      n > 0 && Tokens(path) == [path[..n]] + Tokens(path[n..])
  {
    hide RunLength;
    RunStep(path, NAME_MAX);
  }

  /** A leading name no longer than the buffer is the first token. */
  lemma TokensOfField(path: string)
    requires 0 < FirstSlash(path) <= NAME_MAX
    ensures Tokens(path) == [path[..FirstSlash(path)]] + Tokens(path[FirstSlash(path)..])
  {
    hide FirstSlash, RunLength, Tokens;
    RunIsField(path, NAME_MAX);
    TokensStep(path);
  }

  /** The slash after it is skipped. */
  lemma TokensAtSlash(path: string, n: nat)
    requires n < |path| && path[n] == '/'
    ensures Tokens(path[n..]) == Tokens(path[n + 1..])
  {
    hide Tokens;
    TokensStep(path[n..]);
    assert path[n..][1..] == path[n + 1..];
  }

  /** A name without slashes that fits is one token. */
  lemma OneToken(name: string)
    requires 0 < |name| <= NAME_MAX && '/' !in name
    ensures Tokens(name) == [name]
  {
    hide FirstSlash, Tokens;
    TokensOfField(name);
    TokensStep([]);
    assert name[..|name|] == name && name[|name|..] == [];
  }

  /** No token has a slash. */
  lemma {:induction false} NoSlashes(path: string)
    ensures forall i :: 0 <= i < |Tokens(path)| ==> '/' !in Tokens(path)[i]
    decreases |path|
  {
    hide RunLength;
    TokensStep(path);
    if path != [] {
      NoSlashes(if path[0] == '/' then path[1..] else path[RunLength(path, NAME_MAX)..]);
    }
  }

  lemma {:induction false} TokensAreFields(path: string)
    requires Short(Fields(path))
    ensures Tokens(path) == NonEmpty(Fields(path))
    decreases |path|
  {
    hide FirstSlash, Tokens;
    var n := FirstSlash(path);
    assert Fields(path)[0] == path[..n] by {
      assert n == |path| ==> path[..n] == path;
    }
    if n == |path| {
      TokensStep([]);
      if n > 0 {
        TokensOfField(path);
        assert path[n..] == [];
      }
    } else {
      var rest := Fields(path[n + 1..]);
      assert Fields(path) == [path[..n]] + rest;
      assert forall i :: 0 <= i < |rest| ==> rest[i] == Fields(path)[i + 1];
      TokensAreFields(path[n + 1..]);
      TokensAtSlash(path, n);
      if n > 0 {
        TokensOfField(path);
      } else {
        assert path[0..] == path;
      }
    }
  }

  lemma {:induction false} NonEmptyKeepsLong(names: seq<string>, i: nat)
    requires i < |names| && |names[i]| > NAME_MAX
    ensures !Short(NonEmpty(names))
  {
    if i == 0 {
      assert NonEmpty(names)[0] == names[0];
    } else {
      NonEmptyKeepsLong(names[1..], i - 1);
      var r := NonEmpty(names[1..]);
      var k :| 0 <= k < |r| && |r[k]| > NAME_MAX;
      var all := NonEmpty(names);
      assert all == (if names[0] == [] then [] else [names[0]]) + r;
      assert all[|all| - |r| + k] == r[k];
    }
  }

  /** The components read are the non-empty names between slashes exactly when every
      name fits the buffer; a longer one is cut into several components. */
  lemma TokensExactly(path: string)
    ensures Tokens(path) == NonEmpty(Fields(path)) <==> Short(Fields(path))
  {
    if Short(Fields(path)) {
      TokensAreFields(path);
    } else {
      var i :| 0 <= i < |Fields(path)| && |Fields(path)[i]| > NAME_MAX;
      NonEmptyKeepsLong(Fields(path), i);
      TokensShort(path);
    }
  }

  /** Joining two paths with a slash joins their components, however long they are. */
  lemma {:induction false} TokensJoin(a: string, b: string)
    ensures Tokens(a + "/" + b) == Tokens(a) + Tokens(b)
    decreases |a|
  {
    hide RunLength, Tokens;
    var p := a + "/" + b;
    TokensStep(p);
    TokensStep(a);
    if a == [] {
      assert p[0] == '/' && p[1..] == b;
    } else if a[0] == '/' {
      assert p[0] == '/' && p[1..] == a[1..] + "/" + b;
      TokensJoin(a[1..], b);
    } else {
      RunJoin(a, "/" + b, NAME_MAX);
      assert p == a + ("/" + b);
      var n := RunLength(a, NAME_MAX);
      assert p[..n] == a[..n] && p[n..] == a[n..] + "/" + b;
      TokensJoin(a[n..], b);
    }
  }

  /** The component copy, one character at a time. */
  lemma RunStep(path: string, limit: nat)
    ensures path == [] || path[0] == '/' || limit == 0 ==> RunLength(path, limit) == 0
    ensures path != [] && path[0] != '/' && limit > 0 ==> RunLength(path, limit) == 1 + RunLength(path[1..], limit - 1)
  {
  }

  lemma {:induction false} RunJoin(a: string, b: string, limit: nat)
    requires b != [] && b[0] == '/'
    ensures RunLength(a + b, limit) == RunLength(a, limit)
  {
    if a != [] && a[0] != '/' && limit > 0 {
      RunJoin(a[1..], b, limit - 1);
      assert (a + b)[1..] == a[1..] + b;
    }
  }

  // ---------------------------------------------------------------------------
  // Nodes

  /** A node: `opens` says that its operations include open, as directories' do. The
      children are in list order, the newest first. */
  datatype Node = Node(name: string, isDir: bool, opens: bool, parent: Option<nat>, children: seq<nat>)

  /** A mount covers node `point` with the tree at `top`; the newest is first. */
  datatype Mount = Mount(point: nat, top: nat)

  datatype Fs = Fs(nodes: seq<Node>, mounts: seq<Mount>)

  ghost predicate Valid(fs: Fs) {
    && (forall n :: 0 <= n < |fs.nodes| ==>
          && (fs.nodes[n].parent.Some? ==> fs.nodes[n].parent.value < |fs.nodes|)
          && forall i :: 0 <= i < |fs.nodes[n].children| ==> fs.nodes[n].children[i] < |fs.nodes|)
    && (forall m :: 0 <= m < |fs.mounts| ==> fs.mounts[m].point < |fs.nodes| && fs.mounts[m].top < |fs.nodes|)
  }

  /** The first child with a name. */
  function FindChild(nodes: seq<Node>, children: seq<nat>, name: string): Option<nat>
    requires forall i :: 0 <= i < |children| ==> children[i] < |nodes|
  {
    if children == [] then None
    else if nodes[children[0]].name == name then Some(children[0])
    else FindChild(nodes, children[1..], name)
  }

  /** What covers a node: the newest mount on it, else itself. */
  function MountOf(mounts: seq<Mount>, n: nat): nat {
    if mounts == [] then n else if mounts[0].point == n then mounts[0].top else MountOf(mounts[1..], n)
  }

  function ParentOf(fs: Fs, n: nat): nat
    requires n < |fs.nodes|
  {
    if fs.nodes[n].parent.Some? then fs.nodes[n].parent.value else n
  }

  /** One component: stay, go up, or go to the named child and what covers it. */
  function Step(fs: Fs, n: nat, name: string): (r: Option<nat>)
    requires Valid(fs) && n < |fs.nodes|
    ensures r.Some? ==> r.value < |fs.nodes|
  {
    if name == "." then Some(n)
    else if name == ".." then Some(ParentOf(fs, n))
    else if !fs.nodes[n].opens then None
    else
      var c := FindChild(fs.nodes, fs.nodes[n].children, name);
      if c.None? then None else
        assert c.value < |fs.nodes| && MountOf(fs.mounts, c.value) < |fs.nodes| by {
          ChildInside(fs.nodes, fs.nodes[n].children, name);
          MountInside(fs.mounts, c.value, |fs.nodes|);
        }
        Some(MountOf(fs.mounts, c.value))
  }

  lemma {:induction false} ChildInside(nodes: seq<Node>, children: seq<nat>, name: string)
    requires forall i :: 0 <= i < |children| ==> children[i] < |nodes|
    ensures var c := FindChild(nodes, children, name);
      && (c.Some? ==> c.value < |nodes| && nodes[c.value].name == name && c.value in children)
      && (c.None? <==> forall i :: 0 <= i < |children| ==> nodes[children[i]].name != name)
  {
    if children != [] {
      ChildInside(nodes, children[1..], name);
      assert forall i :: 0 <= i < |children| - 1 ==> children[1..][i] == children[i + 1];
      assert forall i :: 0 < i < |children| ==> children[i] == children[1..][i - 1];
    }
  }

  lemma {:induction false} MountInside(mounts: seq<Mount>, n: nat, size: nat)
    requires n < size && forall m :: 0 <= m < |mounts| ==> mounts[m].top < size
    ensures MountOf(mounts, n) < size
  {
    if mounts != [] {
      MountInside(mounts[1..], n, size);
    }
  }

  /** Stepping over the components, one after another. */
  function Resolve(fs: Fs, n: nat, names: seq<string>): (r: Option<nat>)
    requires Valid(fs) && n < |fs.nodes|
    ensures r.Some? ==> r.value < |fs.nodes|
    decreases |names|
  {
    if names == [] then Some(n)
    else
      var next := Step(fs, n, names[0]);
      if next.None? then None else Resolve(fs, next.value, names[1..])
  }

  lemma {:induction false} ResolveAppend(fs: Fs, n: nat, a: seq<string>, b: seq<string>)
    requires Valid(fs) && n < |fs.nodes|
    ensures var mid := Resolve(fs, n, a);
      Resolve(fs, n, a + b) == if mid.None? then None else Resolve(fs, mid.value, b)
    decreases |a|
  {
    hide Step;
    if a == [] {
      assert a + b == b;
    } else {
      assert (a + b)[0] == a[0] && (a + b)[1..] == a[1..] + b;
      var next := Step(fs, n, a[0]);
      if next.Some? {
        ResolveAppend(fs, next.value, a[1..], b);
      }
    }
  }

  /** Opening a/b is resolving b from what a opens to. */
  lemma OpenJoin(fs: Fs, n: nat, a: string, b: string)
    requires Valid(fs) && n < |fs.nodes|
    ensures var mid := Resolve(fs, n, Tokens(a));
      Resolve(fs, n, Tokens(a + "/" + b)) == if mid.None? then None else Resolve(fs, mid.value, Tokens(b))
  {
    TokensJoin(a, b);
    ResolveAppend(fs, n, Tokens(a), Tokens(b));
  }

  /** Components "." make no difference. */
  function WithoutDots(names: seq<string>): seq<string> {
    if names == [] then [] else (if names[0] == "." then [] else [names[0]]) + WithoutDots(names[1..])
  }

  lemma {:induction false} DotsDropped(fs: Fs, n: nat, names: seq<string>)
    requires Valid(fs) && n < |fs.nodes|
    ensures Resolve(fs, n, WithoutDots(names)) == Resolve(fs, n, names)
    decreases |names|
  {
    if names != [] {
      var rest := WithoutDots(names[1..]);
      if names[0] == "." {
        assert WithoutDots(names) == rest;
        DotsDropped(fs, n, names[1..]);
      } else {
        assert WithoutDots(names)[0] == names[0] && WithoutDots(names)[1..] == rest;
        var next := Step(fs, n, names[0]);
        if next.Some? {
          DotsDropped(fs, next.value, names[1..]);
        }
      }
    }
  }

  /** A path resolves as the fold of steps over its names between slashes, with empty
      and "." ones dropped, when every name fits the buffer. */
  lemma OpenIsFold(fs: Fs, n: nat, path: string)
    requires Valid(fs) && n < |fs.nodes| && Short(Fields(path))
    ensures Resolve(fs, n, Tokens(path)) == Resolve(fs, n, WithoutDots(NonEmpty(Fields(path))))
  {
    TokensAreFields(path);
    DotsDropped(fs, n, Tokens(path));
  }
}
