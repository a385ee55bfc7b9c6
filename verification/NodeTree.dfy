/** The tree of remote nodes (oldmega.c): parent pointers, bounded path rendering, listing and lookup
    by path. */
module NodeTree {
  import opened Wrappers
  import opened Paths

  class MegaNode {
    var name: string
    var handle: string
    var parentHandle: Option<string>
    var contact: bool
    var suHandle: Option<string>
    var parent: MegaNode?
    /** Distance from the top; parents come from the server and are taken to be acyclic. */
    ghost var depth: nat

    constructor (name: string, handle: string, parentHandle: Option<string>, contact: bool, suHandle: Option<string>)
      ensures this.name == name && this.handle == handle && this.parentHandle == parentHandle
      ensures this.contact == contact && this.suHandle == suHandle && parent == null && depth == 0
    {
      this.name, this.handle, this.parentHandle := name, handle, parentHandle;
      this.contact, this.suHandle := contact, suHandle;
      parent, depth := null, 0;
    }
  }

  /** A set of nodes closed under parents, without cycles; names are C strings. */
  ghost predicate Tree(nodes: set<MegaNode>)
    reads nodes
  {
    forall n | n in nodes :: '\0' !in n.name && (n.parent != null ==> n.parent in nodes && n.parent.depth < n.depth)
  }

  /** No name contains a slash. */
  ghost predicate Named(nodes: set<MegaNode>)
    reads nodes
  {
    forall n | n in nodes :: SlashFree(n.name)
  }

  /** A node, its parent, and so on up */
  ghost function Ancestors(n: MegaNode, nodes: set<MegaNode>): (r: seq<MegaNode>)
    requires Tree(nodes) && n in nodes
    reads nodes
    decreases n.depth
  {
    [n] + if n.parent == null then [] else Ancestors(n.parent, nodes)
  }

  ghost function AncestorsOpt(n: MegaNode?, nodes: set<MegaNode>): (r: seq<MegaNode>)
    requires Tree(nodes) && (n != null ==> n in nodes)
    reads nodes
  {
    if n == null then [] else Ancestors(n, nodes)
  }

  /** One step up from a node */
  lemma AncestorsStep(done: seq<MegaNode>, n: MegaNode, nodes: set<MegaNode>)
    requires Tree(nodes) && n in nodes
    ensures done + AncestorsOpt(n, nodes) == (done + [n]) + AncestorsOpt(n.parent, nodes)
  {
    assert AncestorsOpt(n, nodes) == [n] + AncestorsOpt(n.parent, nodes);
    Assoc(done, [n], AncestorsOpt(n.parent, nodes));
  }

  /** The names from the top down to a node */
  ghost function Names(n: MegaNode, nodes: set<MegaNode>): (r: seq<string>)
    requires Tree(nodes) && n in nodes
    reads nodes
    ensures r != []
    decreases n.depth
  {
    (if n.parent == null then [] else Names(n.parent, nodes)) + [n.name]
  }

  /** Each name with a slash before it */
  function Rooted(names: seq<string>): string
  {
    if names == [] then "" else Rooted(names[..|names| - 1]) + "/" + names[|names| - 1]
  }

  ghost function PathOf(n: MegaNode, nodes: set<MegaNode>): string
    requires Tree(nodes) && n in nodes
    reads nodes
  {
    Rooted(Names(n, nodes))
  }

  // ---- Rendering ----

  /** The path of a list of names given from the bottom up */
  function RootedUp(ups: seq<string>): string
  {
    if ups == [] then "" else RootedUp(ups[1..]) + "/" + ups[0]
  }

  ghost function NamesUp(n: MegaNode, nodes: set<MegaNode>): (r: seq<string>)
    requires Tree(nodes) && n in nodes
    reads nodes
    decreases n.depth
  {
    [n.name] + if n.parent == null then [] else NamesUp(n.parent, nodes)
  }

  lemma {:induction false} NamesOfAncestors(n: MegaNode, nodes: set<MegaNode>)
    requires Tree(nodes) && n in nodes
    ensures var a, ups := Ancestors(n, nodes), NamesUp(n, nodes);
      |a| == |ups| > 0 && forall k | 0 <= k < |ups| :: a[k].name == ups[k]
    decreases n.depth
  {
    if n.parent != null {
      NamesOfAncestors(n.parent, nodes);
    }
  }

  lemma {:induction false} RootedUpNames(n: MegaNode, nodes: set<MegaNode>)
    requires Tree(nodes) && n in nodes
    ensures RootedUp(NamesUp(n, nodes)) == PathOf(n, nodes)
    decreases n.depth
  {
    var names, ups := Names(n, nodes), NamesUp(n, nodes);
    if n.parent == null {
      assert ups == names == [n.name];
      assert ups[1..] == [] && names[..|names| - 1] == [];
      assert RootedUp([]) == Rooted([]);
    } else {
      RootedUpNames(n.parent, nodes);
      assert ups[1..] == NamesUp(n.parent, nodes);
      assert names[..|names| - 1] == Names(n.parent, nodes);
    }
  }

  lemma {:induction false} RootedUpSuffix(ups: seq<string>, i: nat)
    requires i <= |ups|
    ensures |RootedUp(ups[i..])| <= |RootedUp(ups)|
  {
    if i == 0 {
      assert ups[0..] == ups;
    } else {
      RootedUpSuffix(ups[1..], i - 1);
      assert ups[1..][i - 1..] == ups[i..];
    }
  }

  lemma {:induction false} RootedUpStep(ups: seq<string>, i: nat)
    requires i < |ups|
    ensures RootedUp(ups[i..]) == RootedUp(ups[i + 1..]) + "/" + ups[i]
    ensures |RootedUp(ups[i..])| <= |RootedUp(ups)|
  {
    assert ups[i..][1..] == ups[i + 1..];
    RootedUpSuffix(ups, i);
  }

  /** `mega_node_get_path`: the buffer receives the path and a NUL when they fit, and only its first
      `len` characters are ever touched. */
  method GetPath(n: MegaNode, buf: array<char>, len: nat, ghost nodes: set<MegaNode>) returns (ok: bool)
    requires Tree(nodes) && n in nodes && len <= buf.Length
    modifies buf
    ensures ok <==> |PathOf(n, nodes)| + 1 <= len
    ensures ok ==> buf[..|PathOf(n, nodes)|] == PathOf(n, nodes) && buf[|PathOf(n, nodes)|] == '\0'
    ensures buf[len..] == old(buf[len..])
  {
    RootedUpNames(n, nodes);
    var parents := ParentList(n, nodes);
    NamesOfAncestors(n, nodes);
    ok := RenderPath(parents, buf, len, NamesUp(n, nodes));
  }

  /** The writing loop of `mega_node_get_path`, from the top node down */
  method RenderPath(parents: seq<MegaNode>, buf: array<char>, len: nat, ghost ups: seq<string>) returns (ok: bool)
    requires |parents| == |ups| > 0 && forall k | 0 <= k < |ups| :: parents[k].name == ups[k]
    requires len <= buf.Length
    modifies buf
    ensures ok <==> |RootedUp(ups)| + 1 <= len
    ensures ok ==> buf[..|RootedUp(ups)|] == RootedUp(ups) && buf[|RootedUp(ups)|] == '\0'
    ensures buf[len..] == old(buf[len..])
  {
    var i := |parents|;
    var p := 0;
    while i > 0
      invariant 0 <= i <= |parents| && (i < |parents| ==> p < len)
      invariant p == |RootedUp(ups[i..])| <= len && buf[..p] == RootedUp(ups[i..])
      invariant buf[len..] == old(buf[len..])
    {
      i := i - 1;
      RootedUpStep(ups, i);
      var name := parents[i].name;
      if len - p < |name| + 2 {
        return false;
      }
      PutText(buf, p, "/" + name, len);
      p := p + 1 + |name|;
    }
    assert ups[0..] == ups;
    buf[p] := '\0';
    ok := true;
  }

  /** memcpy into the buffer */
  method PutText(buf: array<char>, p: nat, text: string, len: nat)
    requires p + |text| <= len <= buf.Length
    modifies buf
    ensures buf[..p + |text|] == old(buf[..p]) + text && buf[len..] == old(buf[len..])
  {
    forall k | 0 <= k < |text| {
      buf[p + k] := text[k];
    }
  }

  /** The pointer list of `mega_node_get_path` */
  method ParentList(n: MegaNode, ghost nodes: set<MegaNode>) returns (parents: seq<MegaNode>)
    requires Tree(nodes) && n in nodes
    ensures parents == Ancestors(n, nodes)
  {
    parents := [];
    var it: MegaNode? := n;
    while it != null
      invariant it != null ==> it in nodes
      invariant parents + AncestorsOpt(it, nodes) == Ancestors(n, nodes)
      decreases if it == null then 0 else it.depth + 1
    {
      AncestorsStep(parents, it, nodes);
      parents := parents + [it];
      it := it.parent;
    }
  }

  // ---- Listing ----

  const PATH_MAX: nat := 4096

  /** The prefix `mega_session_ls` filters by */
  function ListPrefix(path: string): string
  {
    if Simplify(path) == "/" then "/" else Simplify(path) + "/"
  }

  /** The test of `_ls` on a path that fits the buffer */
  predicate PassesFilter(p: string, prefix: string, recursive: bool)
  {
    |p| + 1 <= PATH_MAX && prefix <= p && (recursive || SlashFree(p[|prefix|..]))
  }

  ghost predicate Lists(n: MegaNode, prefix: string, recursive: bool, nodes: set<MegaNode>)
    requires Tree(nodes) && n in nodes
    reads nodes
  {
    PassesFilter(PathOf(n, nodes), prefix, recursive)
  }

  /** The nodes of a list that are listed, last one first */
  ghost function Listed(list: seq<MegaNode>, prefix: string, recursive: bool, nodes: set<MegaNode>): seq<MegaNode>
    requires Tree(nodes) && forall i | 0 <= i < |list| :: list[i] in nodes
    reads nodes
  {
    if list == [] then []
    else
      var k := |list| - 1;
      (if Lists(list[k], prefix, recursive, nodes) then [list[k]] else []) + Listed(list[..k], prefix, recursive, nodes)
  }

  /** The C string in a buffer */
  function BufferText(s: seq<char>): string
  {
    if s == [] || s[0] == '\0' then "" else [s[0]] + BufferText(s[1..])
  }

  lemma {:induction false} BufferTextOf(t: string, rest: seq<char>)
    requires '\0' !in t && rest != [] && rest[0] == '\0'
    ensures BufferText(t + rest) == t
  {
    if t == "" {
      assert t + rest == rest;
    } else {
      BufferTextOf(t[1..], rest);
      assert (t + rest)[1..] == t[1..] + rest;
    }
  }

  lemma {:induction false} PathHasNoNul(n: MegaNode, nodes: set<MegaNode>)
    requires Tree(nodes) && n in nodes
    ensures '\0' !in PathOf(n, nodes)
    decreases n.depth
  {
    var names := Names(n, nodes);
    assert names[..|names| - 1] == if n.parent == null then [] else Names(n.parent, nodes);
    var up := Rooted(names[..|names| - 1]);
    if n.parent != null {
      PathHasNoNul(n.parent, nodes);
    }
    assert PathOf(n, nodes) == up + "/" + n.name;
    assert '\0' !in up;
  }

  /** `mega_node_get_path` into a fresh buffer, read back as a C string */
  method RenderedPath(n: MegaNode, ghost nodes: set<MegaNode>) returns (ok: bool, text: string)
    requires Tree(nodes) && n in nodes
    ensures ok <==> |PathOf(n, nodes)| + 1 <= PATH_MAX
    ensures ok ==> text == PathOf(n, nodes)
  {
    var buf := new char[PATH_MAX](_ => '?');
    ok := GetPath(n, buf, PATH_MAX, nodes);
    text := "";
    if ok {
      PathHasNoNul(n, nodes);
      BufferHolds(buf[..], PathOf(n, nodes));
      text := BufferText(buf[..]);
    }
  }

  lemma {:induction false} BufferHolds(s: seq<char>, t: string)
    requires '\0' !in t && |t| < |s| && s[..|t|] == t && s[|t|] == '\0'
    ensures BufferText(s) == t
  {
    BufferTextOf(t, s[|t|..]);
    assert s == t + s[|t|..];
  }

  /** The test of `_ls` */
  method Matches(n: MegaNode, prefix: string, recursive: bool, ghost nodes: set<MegaNode>) returns (b: bool)
    requires Tree(nodes) && n in nodes
    ensures b == Lists(n, prefix, recursive, nodes)
  {
    var ok, p := RenderedPath(n, nodes);
    b := ok && prefix <= p && (recursive || '/' !in p[|prefix|..]);
  }

  /** `mega_session_ls`: the listed nodes, last one first */
  method Ls(list: seq<MegaNode>, path: string, recursive: bool, ghost nodes: set<MegaNode>) returns (r: seq<MegaNode>)
    requires Tree(nodes) && forall i | 0 <= i < |list| :: list[i] in nodes
    ensures r == Listed(list, ListPrefix(path), recursive, nodes)
  {
    var tmp := PathSimplify(path);
    r := Filter(list, if tmp == "/" then "/" else tmp + "/", recursive, nodes);
  }

  /** The loop of `mega_session_ls` over the nodes of the session */
  method Filter(list: seq<MegaNode>, prefix: string, recursive: bool, ghost nodes: set<MegaNode>)
    returns (r: seq<MegaNode>)
    requires Tree(nodes) && forall i | 0 <= i < |list| :: list[i] in nodes
    ensures r == Listed(list, prefix, recursive, nodes)
  {
    r := [];
    var i := 0;
    while i < |list|
      invariant 0 <= i <= |list|
      invariant r == old(Listed(list[..i], prefix, recursive, nodes))
    {
      var passes := Matches(list[i], prefix, recursive, nodes);
      assert passes == old(Lists(list[i], prefix, recursive, nodes));
      assert list[..i + 1][..i] == list[..i];
      if passes {
        r := [list[i]] + r;
      }
      i := i + 1;
    }
    assert list[..i] == list;
  }

  /** The nodes listed, by membership */
  lemma {:induction false} ListedMembers(list: seq<MegaNode>, prefix: string, recursive: bool, nodes: set<MegaNode>,
      n: MegaNode)
    requires Tree(nodes) && forall i | 0 <= i < |list| :: list[i] in nodes
    ensures n in Listed(list, prefix, recursive, nodes) <==>
      n in list && n in nodes && Lists(n, prefix, recursive, nodes)
  {
    if list != [] {
      var k := |list| - 1;
      ListedMembers(list[..k], prefix, recursive, nodes, n);
      assert list == list[..k] + [list[k]];
    }
  }

  // ---- Listing by prefix is descent in the tree ----

  lemma {:induction false} RootedIsJoin(names: seq<string>)
    ensures Rooted(names) == JoinPath([""] + names)
  {
    var v := [""] + names;
    if names != [] {
      RootedIsJoin(names[..|names| - 1]);
      assert v[..|v| - 1] == [""] + names[..|names| - 1];
    }
  }

  lemma {:induction false} RootedInjective(a: seq<string>, b: seq<string>)
    requires AllSlashFree(a) && AllSlashFree(b) && Rooted(a) == Rooted(b)
    ensures a == b
  {
    RootedIsJoin(a);
    RootedIsJoin(b);
    PiecesOfJoin([""] + a);
    PiecesOfJoin([""] + b);
    assert a == ([""] + a)[1..] && b == ([""] + b)[1..];
  }

  /** A path begins with another one and a slash exactly when the names of the other are a proper
      prefix of its names. */
  lemma {:induction false} PrefixIsAncestor(dir: seq<string>, names: seq<string>)
    requires AllSlashFree(dir) && AllSlashFree(names)
    ensures Rooted(dir) + "/" <= Rooted(names) <==> dir < names
  {
    var d := Rooted(dir) + "/";
    if names == [] {
      assert |d| > |Rooted(names)|;
    } else {
      var up, last := names[..|names| - 1], names[|names| - 1];
      PrefixIsAncestor(dir, up);
      assert dir < names <==> dir == up || dir < up by {
        ProperPrefixSnoc(dir, names);
      }
      LastSlash(Rooted(dir), Rooted(up), last);
      if Rooted(dir) == Rooted(up) {
        RootedInjective(dir, up);
      }
    }
  }

  lemma ProperPrefixSnoc(dir: seq<string>, names: seq<string>)
    requires names != []
    ensures dir < names <==> dir == names[..|names| - 1] || dir < names[..|names| - 1]
  {
    var up := names[..|names| - 1];
    if dir < names {
      assert dir == names[..|dir|];
      if |dir| < |up| {
        assert dir == up[..|dir|];
      }
    }
  }

  /** Where the separating slash of a prefix can be: at the last slash, or further left. */
  lemma LastSlash(d: string, up: string, last: string)
    requires SlashFree(last)
    ensures d + "/" <= up + "/" + last <==> d == up || d + "/" <= up
  {
    var p := up + "/" + last;
    assert forall k | |up| < k < |p| :: p[k] == last[k - |up| - 1] && p[k] in last;
    if d + "/" <= p {
      assert p[|d|] == '/' && d == p[..|d|];
      assert |d| <= |up|;
      assert d == up[..|d|];
      if |d| < |up| {
        assert up[|d|] == '/';
        assert up[..|d| + 1] == d + "/";
      }
    }
    if d + "/" <= up {
      assert p[..|d| + 1] == up[..|d| + 1];
    }
    assert up + "/" <= p;
  }

  /** The rest of a path after a directory and a slash has no slash exactly when one name is left. */
  lemma {:induction false} RestIsOneName(dir: seq<string>, names: seq<string>)
    requires AllSlashFree(dir) && AllSlashFree(names) && dir < names
    ensures Rooted(dir) + "/" <= Rooted(names)
    ensures SlashFree(Rooted(names)[|Rooted(dir)| + 1..]) <==> |names| == |dir| + 1
  {
    var up := names[..|names| - 1];
    ProperPrefixSnoc(dir, names);
    if dir < up {
      PrefixIsAncestor(dir, up);
    }
    RestAfterPrefix(Rooted(dir), Rooted(up), names[|names| - 1]);
  }

  lemma RestAfterPrefix(d: string, up: string, last: string)
    requires SlashFree(last) && (d == up || d + "/" <= up)
    ensures d + "/" <= up + "/" + last
    ensures SlashFree((up + "/" + last)[|d| + 1..]) <==> d == up
  {
    LastSlash(d, up, last);
    var rest := (up + "/" + last)[|d| + 1..];
    if d == up {
      assert rest == last;
    } else {
      assert rest[|up| - |d| - 1] == '/';
      assert '/' in rest;
    }
  }

  lemma KeptRenders(kept: seq<string>)
    requires AbsoluteNormal(kept) && AllSlashFree(kept)
    ensures JoinPath(kept) == Rooted(kept[1..]) && AllSlashFree(kept[1..])
  {
    RootedIsJoin(kept[1..]);
    assert kept == [""] + kept[1..];
    forall i | 0 <= i < |kept[1..]| ensures SlashFree(kept[1..][i]) {
      assert kept[1..][i] == kept[i + 1];
    }
  }

  /** A simplified absolute path renders the directory it means. */
  lemma SimplifiedRenders(path: string)
    requires Absolute(path) && !OnlySlashes(path)
    ensures Simplify(path) == Rooted(Meaning([], path)) && AllSlashFree(Meaning([], path))
  {
    var v := Elements(path);
    var kept := Keep(StartsEmpty(v), v);
    KeptElements(path);
    KeptRenders(kept);
    assert Meaning([], path) == kept[1..] by {
      KeptMeaning(path, kept);
    }
  }

  lemma KeptMeaning(path: string, kept: seq<string>)
    requires Absolute(path) && AbsoluteNormal(kept) && AllSlashFree(kept) && Simplify(path) == JoinPath(kept)
    ensures Meaning([], path) == kept[1..]
  {
    AbsoluteResolves(kept);
    SimplifyMeaning([], path);
    PiecesOfJoin(kept);
  }

  lemma {:induction false} NamesSlashFree(n: MegaNode, nodes: set<MegaNode>)
    requires Tree(nodes) && Named(nodes) && n in nodes
    ensures AllSlashFree(Names(n, nodes))
    decreases n.depth
  {
    if n.parent != null {
      NamesSlashFree(n.parent, nodes);
    }
  }

  lemma {:induction false} OnlySlashesMeaning(path: string)
    requires forall i | 0 <= i < |path| :: path[i] == '/'
    ensures Resolve([], Pieces(path)) == []
  {
    if path != "" {
      OnlySlashesMeaning(path[..|path| - 1]);
      var p := Pieces(path);
      assert p[..|p| - 1] == Pieces(path[..|path| - 1]);
    } else {
      assert Resolve([], [""][..0]) == [];
    }
  }

  /** Listing an absolute path gives exactly the nodes in the directory it means: at any depth below
      it, or directly in it. */
  lemma {:induction false} ListingIsDescent(n: MegaNode, path: string, recursive: bool, nodes: set<MegaNode>)
    requires Tree(nodes) && Named(nodes) && n in nodes && Absolute(path)
    requires |PathOf(n, nodes)| + 1 <= PATH_MAX
    ensures var dir, names := Meaning([], path), Names(n, nodes);
      Lists(n, ListPrefix(path), recursive, nodes) <==> dir < names && (recursive || |names| == |dir| + 1)
  {
    var dir, names := Meaning([], path), Names(n, nodes);
    NamesSlashFree(n, nodes);
    if OnlySlashes(path) {
      SimplifyShape(path);
      OnlySlashesMeaning(path);
      assert AllSlashFree(dir);
    } else {
      SimplifiedRenders(path);
      NotJustSlash(path);
    }
    assert Rooted([]) == "";
    assert ListPrefix(path) == Rooted(dir) + "/";
    PrefixIsAncestor(dir, names);
    if dir < names {
      RestIsOneName(dir, names);
    }
  }

  lemma NotJustSlash(path: string)
    requires Absolute(path) && !OnlySlashes(path)
    ensures Simplify(path) != "/"
  {
    SimplifyShape(path);
    assert "/"[..0] == "" && Pieces("/") == ["", ""];
    assert !AbsoluteNormal(["", ""]) by {
      assert ["", ""][1] == "";
    }
  }

  /** The names of the ancestors of a node are the prefixes of its own. */
  lemma {:induction false} PrefixIsAncestorNode(n: MegaNode, dir: seq<string>, nodes: set<MegaNode>)
    returns (a: MegaNode)
    requires Tree(nodes) && n in nodes && dir != [] && dir < Names(n, nodes)
    ensures n.parent != null && a in Ancestors(n.parent, nodes) && a in nodes && Names(a, nodes) == dir
    decreases n.depth
  {
    var names := Names(n, nodes);
    ProperPrefixSnoc(dir, names);
    assert names[..|names| - 1] == if n.parent == null then [] else Names(n.parent, nodes);
    if dir == names[..|names| - 1] {
      a := n.parent;
    } else {
      a := PrefixIsAncestorNode(n.parent, dir, nodes);
    }
  }

  lemma {:induction false} AncestorNamesArePrefix(n: MegaNode, a: MegaNode, nodes: set<MegaNode>)
    requires Tree(nodes) && n in nodes && a in Ancestors(n, nodes)
    ensures a in nodes && Names(a, nodes) <= Names(n, nodes)
    decreases n.depth
  {
    if a != n {
      AncestorNamesArePrefix(n.parent, a, nodes);
    }
  }

  /** Recursive listing below the root gives exactly the nodes that have a proper ancestor at the
      simplified path. */
  lemma {:induction false} ListingHasAncestor(n: MegaNode, path: string, nodes: set<MegaNode>)
    requires Tree(nodes) && Named(nodes) && n in nodes && Absolute(path) && Meaning([], path) != []
    requires |PathOf(n, nodes)| + 1 <= PATH_MAX
    ensures Lists(n, ListPrefix(path), true, nodes) <==>
      n.parent != null && exists a ::
        a in Ancestors(n.parent, nodes) && a in nodes && PathOf(a, nodes) == Simplify(path)
  {
    var dir := Meaning([], path);
    ListingIsDescent(n, path, true, nodes);
    if OnlySlashes(path) {
      OnlySlashesMeaning(path);
    }
    SimplifiedRenders(path);
    if dir < Names(n, nodes) {
      var a := PrefixIsAncestorNode(n, dir, nodes);
      assert PathOf(a, nodes) == Simplify(path);
    }
    if n.parent != null {
      forall a | a in Ancestors(n.parent, nodes) && a in nodes && PathOf(a, nodes) == Simplify(path)
        ensures dir < Names(n, nodes)
      {
        AncestorNamesArePrefix(n.parent, a, nodes);
        NamesSlashFree(a, nodes);
        RootedInjective(Names(a, nodes), dir);
      }
    }
  }

  /** What `mega_session_ls` returns for an absolute path: of the nodes whose path fits the buffer, exactly
      those below the directory the path means, or directly in it. */
  lemma {:induction false} LsIsDescent(list: seq<MegaNode>, path: string, recursive: bool, nodes: set<MegaNode>,
      n: MegaNode)
    requires Tree(nodes) && Named(nodes) && (forall i | 0 <= i < |list| :: list[i] in nodes) && Absolute(path)
    ensures n in Listed(list, ListPrefix(path), recursive, nodes) <==>
      && n in list && n in nodes && |PathOf(n, nodes)| + 1 <= 4096
      && Meaning([], path) < Names(n, nodes) && (recursive || |Names(n, nodes)| == |Meaning([], path)| + 1)
  {
    ListedMembers(list, ListPrefix(path), recursive, nodes, n);
    if n in nodes && |PathOf(n, nodes)| + 1 <= PATH_MAX {
      ListingIsDescent(n, path, recursive, nodes);
    }
  }

  lemma ListedOne(n: MegaNode, prefix: string, recursive: bool, nodes: set<MegaNode>)
    requires Tree(nodes) && n in nodes
    ensures Listed([n], prefix, recursive, nodes) == if Lists(n, prefix, recursive, nodes) then [n] else []
  {
    assert [n][..0] == [];
  }

  lemma {:induction false} ListedSnoc(list: seq<MegaNode>, n: MegaNode, prefix: string, recursive: bool,
      nodes: set<MegaNode>)
    requires Tree(nodes) && (forall i | 0 <= i < |list| :: list[i] in nodes) && n in nodes
    ensures Listed(list + [n], prefix, recursive, nodes)
      == Listed([n], prefix, recursive, nodes) + Listed(list, prefix, recursive, nodes)
  {
    ListedOne(n, prefix, recursive, nodes);
    assert (list + [n])[..|list|] == list;
  }

  /** The nodes of a list come out last one first. */
  lemma {:induction false} ListedAppend(a: seq<MegaNode>, b: seq<MegaNode>, prefix: string, recursive: bool,
      nodes: set<MegaNode>)
    requires Tree(nodes) && (forall i | 0 <= i < |a| :: a[i] in nodes) && (forall i | 0 <= i < |b| :: b[i] in nodes)
    ensures Listed(a + b, prefix, recursive, nodes)
      == Listed(b, prefix, recursive, nodes) + Listed(a, prefix, recursive, nodes)
  {
    if b == [] {
      assert a + b == a;
    } else {
      hide Listed, Tree;
      var front, last := b[..|b| - 1], b[|b| - 1];
      ListedAppend(a, front, prefix, recursive, nodes);
      ListedSnoc(front, last, prefix, recursive, nodes);
      ListedSnoc(a + front, last, prefix, recursive, nodes);
      assert a + b == (a + front) + [last] && b == front + [last];
      Assoc(Listed([last], prefix, recursive, nodes), Listed(front, prefix, recursive, nodes),
            Listed(a, prefix, recursive, nodes));
    }
  }

  // ---- Lookup ----

  /** The node's path fits the buffer and is the simplified path. */
  ghost predicate StandsAt(n: MegaNode, path: string, nodes: set<MegaNode>)
    requires Tree(nodes) && n in nodes
    reads nodes
  {
    |PathOf(n, nodes)| + 1 <= 4096 && PathOf(n, nodes) == Simplify(path)
  }

  /** `mega_session_stat`: the first node whose path is the simplified path, and null only without one */
  method Stat(list: seq<MegaNode>, path: string, ghost nodes: set<MegaNode>) returns (r: MegaNode?)
    requires Tree(nodes) && forall i | 0 <= i < |list| :: list[i] in nodes
    ensures r == null <==> forall i | 0 <= i < |list| :: !StandsAt(list[i], path, nodes)
    ensures r != null ==> exists i | 0 <= i < |list| ::
      r == list[i] && StandsAt(list[i], path, nodes) && forall k | 0 <= k < i :: !StandsAt(list[k], path, nodes)
  {
    var tmp := PathSimplify(path);
    var i := 0;
    while i < |list|
      invariant 0 <= i <= |list|
      invariant forall k | 0 <= k < i :: !StandsAt(list[k], path, nodes)
    {
      var ok, p := RenderedPath(list[i], nodes);
      if ok && p == tmp {
        return list[i];
      }
      i := i + 1;
    }
    return null;
  }

  /** A node is at the simplified path exactly when its names are the directory the path means; a path of slashes
      only, which stays a slash, finds a node without a name at the top. */
  lemma {:induction false} StatIsMeaning(n: MegaNode, path: string, nodes: set<MegaNode>)
    requires Tree(nodes) && Named(nodes) && n in nodes && Absolute(path)
    ensures PathOf(n, nodes) == Simplify(path) <==>
      Names(n, nodes) == if OnlySlashes(path) then [""] else Meaning([], path)
  {
    var names := Names(n, nodes);
    NamesSlashFree(n, nodes);
    if OnlySlashes(path) {
      SimplifyShape(path);
      assert [""][..0] == [] && Rooted([""]) == "/";
      if PathOf(n, nodes) == "/" {
        RootedInjective(names, [""]);
      }
    } else {
      SimplifiedRenders(path);
      if PathOf(n, nodes) == Simplify(path) {
        RootedInjective(names, Meaning([], path));
      }
    }
  }

  // ---- Parent pointers ----

  /** The node a handle stands for in the handle map: the last one in the list that has it with GLib 2.40 and
      newer, the first one before that */
  ghost function Lookup(list: seq<MegaNode>, handle: string, newGlib: bool): MegaNode?
    reads (set i | 0 <= i < |list| :: list[i])`handle
  {
    if list == [] then null
    else
      var n, earlier := list[|list| - 1], Lookup(list[..|list| - 1], handle, newGlib);
      if n.handle == handle && (newGlib || earlier == null) then n else earlier
  }

  /** A handle finds a node exactly when some node has it, and a node with that handle. */
  lemma {:induction false} LookupFinds(list: seq<MegaNode>, handle: string, newGlib: bool)
    ensures var n := Lookup(list, handle, newGlib);
      if n == null then forall i | 0 <= i < |list| :: list[i].handle != handle else n in list && n.handle == handle
  {
    if list != [] {
      LookupFinds(list[..|list| - 1], handle, newGlib);
    }
  }

  /** The handle that decides a node's parent: for contacts that of the share user */
  function ParentKey(n: MegaNode): Option<string>
    reads n`contact, n`suHandle, n`parentHandle
  {
    if n.contact then n.suHandle else n.parentHandle
  }

  /** Of several nodes with a handle it is the last one, and before GLib 2.40 the first one. */
  lemma {:induction false} LookupPicks(list: seq<MegaNode>, i: nat, newGlib: bool)
    requires i < |list|
    requires newGlib ==> forall j | i < j < |list| :: list[j].handle != list[i].handle
    requires !newGlib ==> forall j | 0 <= j < i :: list[j].handle != list[i].handle
    ensures Lookup(list, list[i].handle, newGlib) == list[i]
  {
    var front := list[..|list| - 1];
    if i < |front| {
      LookupPicks(front, i, newGlib);
    } else {
      LookupFinds(front, list[i].handle, newGlib);
    }
  }

  /** With distinct handles the version makes no difference. */
  lemma {:induction false} LookupUnique(list: seq<MegaNode>, i: nat, newGlib: bool)
    requires i < |list| && forall j, k | 0 <= j < k < |list| :: list[j].handle != list[k].handle
    ensures Lookup(list, list[i].handle, newGlib) == list[i]
  {
    var front := list[..|list| - 1];
    LookupFinds(front, list[i].handle, newGlib);
    if i < |front| {
      LookupUnique(front, i, newGlib);
    }
  }

  /** `update_pathmap`: every node with a parent key points to the node that key stands for; the
      others keep their parent. */
  method UpdatePathmap(list: seq<MegaNode>, newGlib: bool)
    modifies (set i | 0 <= i < |list| :: list[i])`parent
    ensures forall i | 0 <= i < |list| ::
      var key := if list[i].contact then list[i].suHandle else list[i].parentHandle;
      list[i].parent == if key.Some? then Lookup(list, key.value, newGlib) else old(list[i].parent)
  {
    var handleMap: map<string, MegaNode> := map[];
    var i := 0;
    while i < |list|
      modifies {}
      invariant 0 <= i <= |list|
      invariant forall h: string :: Lookup(list[..i], h, newGlib) == if h in handleMap then handleMap[h] else null
    {
      assert list[..i + 1][..i] == list[..i];
      if newGlib || list[i].handle !in handleMap {
        handleMap := handleMap[list[i].handle := list[i]];
      }
      i := i + 1;
    }
    assert list[..i] == list;
    i := 0;
    while i < |list|
      invariant 0 <= i <= |list|
      invariant forall k | 0 <= k < |list| ::
        list[k].parent == if ParentKey(list[k]).Some? && list[k] in list[..i]
          then Lookup(list, ParentKey(list[k]).value, newGlib) else old(list[k].parent)
    {
      var key := if list[i].contact then list[i].suHandle else list[i].parentHandle;
      assert list[..i + 1] == list[..i] + [list[i]];
      if key.Some? {
        list[i].parent := if key.value in handleMap then handleMap[key.value] else null;
      }
      i := i + 1;
    }
  }
}
