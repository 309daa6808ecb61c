/** The project explorer: flattening a directory into the list of entries
    shown as buttons (`build_tree`), and resolving a clicked entry against
    the base path (`base_path / item`). The file system is a finite tree whose
    child order is the order `directory_iterator` yields. */
module FileTree {

  import opened Wrappers
  import Text

  /** A directory entry. `File` is anything that is not a directory;
      `regular` says whether it is a regular file (false for a fifo, a
      socket, a device or a dangling link). */
  datatype Node =
    | File(name: string, regular: bool)
    | Dir(name: string, children: seq<Node>)

  /** Entries `build_tree` emits for one node under `prefix`: the node's own
      path if it is not a directory, else those of its contents. */
  function Entries(n: Node, prefix: string): seq<string>
    decreases n
  {
    match n
    case File(name, _) => [prefix + name]
    case Dir(name, children) => Flatten(children, prefix + name + "/")
  }

  /** Entries for a sequence of siblings, in iteration order. */
  function Flatten(nodes: seq<Node>, prefix: string): seq<string>
    decreases nodes
  {
    if nodes == [] then []
    else Flatten(nodes[..|nodes| - 1], prefix) + Entries(nodes[|nodes| - 1], prefix)
  }

  /** Number of non-directories in a node. */
  function FileCount(n: Node): nat
    decreases n
  {
    match n
    case File(_, _) => 1
    case Dir(_, children) => FileCountAll(children)
  }

  function FileCountAll(nodes: seq<Node>): nat
    decreases nodes
  {
    if nodes == [] then 0 else FileCountAll(nodes[..|nodes| - 1]) + FileCount(nodes[|nodes| - 1])
  }

  /** `build_tree(dir, tree, prefix)`: appends the entries below directory
      `dir` to `tree`, recursing into subdirectories as they are met. */
  method BuildTree(dir: Node, tree: seq<string>, prefix: string) returns (tree': seq<string>)
    requires dir.Dir?
    ensures tree' == tree + Flatten(dir.children, prefix)
    decreases dir
  {
    var children := dir.children;
    tree' := tree;
    for i := 0 to |children|
      invariant tree' == tree + Flatten(children[..i], prefix)
    {
      assert children[..i + 1][..i] == children[..i];
      var entry := children[i];
      if entry.Dir? {
        tree' := BuildTree(entry, tree', prefix + entry.name + "/");
      } else {
        tree' := tree' + [prefix + entry.name];
      }
    }
    assert children[..|children|] == children;
  }

  /** What the left panel lists for the path given on the command line: the
      flattened directory, or a single "File: <name>" line for anything else. */
  function LeftTree(root: Node): seq<string>
  {
    if root.Dir? then Flatten(root.children, "") else ["File: " + root.name]
  }

  /** The first of `nodes` named `name`. */
  function Find(nodes: seq<Node>, name: string): (r: Option<Node>)
    ensures r.Some? ==> r.value in nodes && r.value.name == name
    ensures r.None? ==> forall n :: n in nodes ==> n.name != name
  {
    if nodes == [] then None
    else if nodes[0].name == name then Some(nodes[0])
    else Find(nodes[1..], name)
  }

  /** The node a relative path names below `nodes`, taking each '/'-separated
      component in turn. */
  function Lookup(nodes: seq<Node>, path: string): Option<Node>
    decreases |path|
  {
    var k := Text.IndexOf(path, '/');
    var found := Find(nodes, path[..k]);
    if k == |path| then found
    else if found.Some? && found.value.Dir? then Lookup(found.value.children, path[k + 1..])
    else None
  }

  /** `fs::is_regular_file(base_path / item)` for the base path `root`. A base
      that is not a directory has nothing below it. */
  predicate IsRegularFileAt(root: Node, item: string)
  {
    root.Dir? && var found := Lookup(root.children, item); found.Some? && found.value.File? && found.value.regular
  }

  /** A real directory: names are non-empty, hold no '/', and are distinct
      among siblings. */
  predicate WellFormed(n: Node)
    decreases n
  {
    && n.name != [] && '/' !in n.name
    && (n.Dir? ==> WellFormedAll(n.children))
  }

  predicate WellFormedAll(nodes: seq<Node>)
    decreases nodes
  {
    && (forall i, j :: 0 <= i < j < |nodes| ==> nodes[i].name != nodes[j].name)
    && (forall i :: 0 <= i < |nodes| ==> WellFormed(nodes[i]))
  }

  /** Each non-directory yields exactly one entry: the list is as long as
      the number of files, so an empty directory yields none. */
  lemma {:induction false} FlattenCount(nodes: seq<Node>, prefix: string)
    ensures |Flatten(nodes, prefix)| == FileCountAll(nodes)
    decreases nodes
  {
    if nodes != [] {
      FlattenCount(nodes[..|nodes| - 1], prefix);
      EntriesCount(nodes[|nodes| - 1], prefix);
    }
  }

  lemma {:induction false} EntriesCount(n: Node, prefix: string)
    ensures |Entries(n, prefix)| == FileCount(n)
    decreases n
  {
    if n.Dir? {
      FlattenCount(n.children, prefix + n.name + "/");
    }
  }

  /** An entry is in a sibling list's entries exactly when it is among the
      entries of one of the siblings. */
  lemma {:induction false} FlattenMember(nodes: seq<Node>, prefix: string, e: string)
    ensures e in Flatten(nodes, prefix) <==> exists i :: 0 <= i < |nodes| && e in Entries(nodes[i], prefix)
  {
    if nodes != [] {
      var init := nodes[..|nodes| - 1];
      FlattenMember(init, prefix, e);
      if exists i :: 0 <= i < |init| && e in Entries(init[i], prefix) {
        var i :| 0 <= i < |init| && e in Entries(init[i], prefix);
        assert nodes[i] == init[i];
      }
      if exists i :: 0 <= i < |nodes| && e in Entries(nodes[i], prefix) {
        var i :| 0 <= i < |nodes| && e in Entries(nodes[i], prefix);
        if i < |init| {
          assert init[i] == nodes[i];
        }
      }
    }
  }

  /** Among siblings with distinct names, a node is found by its name. */
  lemma {:induction false} FindByName(nodes: seq<Node>, i: nat)
    requires i < |nodes|
    requires forall a, b :: 0 <= a < b < |nodes| ==> nodes[a].name != nodes[b].name
    ensures Find(nodes, nodes[i].name) == Some(nodes[i])
  {
    if i > 0 {
      assert nodes[0].name != nodes[i].name;
      FindByName(nodes[1..], i - 1);
    }
  }

  /** A path without '/' names a child directly. */
  lemma LookupName(nodes: seq<Node>, name: string)
    requires '/' !in name
    ensures Lookup(nodes, name) == Find(nodes, name)
  {
    Text.IndexOfUnique(name, '/', |name|);
    assert name[..|name|] == name;
  }

  /** A path `name/rest` descends into the child directory `name`. */
  lemma LookupStep(nodes: seq<Node>, name: string, rest: string)
    requires '/' !in name
    requires Find(nodes, name).Some? && Find(nodes, name).value.Dir?
    ensures Lookup(nodes, name + "/" + rest) == Lookup(Find(nodes, name).value.children, rest)
  {
    var path := name + "/" + rest;
    Text.IndexOfUnique(path, '/', |name|);
    assert path[..|name|] == name;
    assert path[|name| + 1..] == rest;
  }

  /** The entry of child `i`, a non-directory, leads back to it. */
  lemma FileEntryResolves(nodes: seq<Node>, i: nat, prefix: string)
    requires i < |nodes| && nodes[i].File? && '/' !in nodes[i].name
    requires forall a, b :: 0 <= a < b < |nodes| ==> nodes[a].name != nodes[b].name
    ensures Lookup(nodes, nodes[i].name) == Some(nodes[i])
  {
    FindByName(nodes, i);
    LookupName(nodes, nodes[i].name);
  }

  /** An entry below child `i`, a directory, is looked up inside it. */
  lemma DirEntryStep(nodes: seq<Node>, i: nat, prefix: string, e: string)
    requires i < |nodes| && nodes[i].Dir? && '/' !in nodes[i].name
    requires forall a, b :: 0 <= a < b < |nodes| ==> nodes[a].name != nodes[b].name
    requires |prefix + nodes[i].name + "/"| <= |e| && e[..|prefix + nodes[i].name + "/"|] == prefix + nodes[i].name + "/"
    ensures |prefix| <= |e| && e[..|prefix|] == prefix
    ensures Lookup(nodes, e[|prefix|..]) == Lookup(nodes[i].children, e[|prefix + nodes[i].name + "/"|..])
  {
    var name := nodes[i].name;
    var prefix' := prefix + name + "/";
    var rest' := e[|prefix'|..];
    assert e == prefix + (name + "/" + rest');
    assert e[|prefix|..] == name + "/" + rest';
    FindByName(nodes, i);
    LookupStep(nodes, name, rest');
  }

  /** Every entry listed under directory `dir` with `prefix` is `prefix`
      followed by a path that names, below `dir`, a non-directory: joining
      an entry to the base path reaches a file, never a directory or
      nothing. */
  lemma {:induction false} EntriesResolve(dir: Node, prefix: string, e: string)
    requires dir.Dir? && WellFormedAll(dir.children)
    requires e in Flatten(dir.children, prefix)
    ensures |prefix| <= |e| && e[..|prefix|] == prefix
    ensures var found := Lookup(dir.children, e[|prefix|..]);
            found.Some? && found.value.File?
    decreases dir
  {
    var nodes := dir.children;
    FlattenMember(nodes, prefix, e);
    var i :| 0 <= i < |nodes| && e in Entries(nodes[i], prefix);
    var n := nodes[i];
    assert WellFormed(n);
    if n.File? {
      assert e == prefix + n.name;
      assert e[|prefix|..] == n.name;
      FileEntryResolves(nodes, i, prefix);
    } else {
      EntriesResolve(n, prefix + n.name + "/", e);
      DirEntryStep(nodes, i, prefix, e);
    }
  }

  /** Clicking a listed entry of a well-formed directory reloads the viewer
      exactly when the entry was listed for a regular file. */
  lemma ClickOnListedEntry(root: Node, e: string)
    requires root.Dir? && WellFormedAll(root.children)
    requires e in LeftTree(root)
    ensures var found := Lookup(root.children, e);
            && found.Some? && found.value.File?
            && (IsRegularFileAt(root, e) <==> found.value.regular)
  {
    EntriesResolve(root, "", e);
    assert e[0..] == e;
  }

  /** The converse of `EntriesResolve`: every path that names a
      non-directory below `nodes` is listed, so the explorer shows every
      file of the tree. */
  lemma {:induction false} FoundIsListed(nodes: seq<Node>, prefix: string, p: string)
    requires Lookup(nodes, p).Some? && Lookup(nodes, p).value.File?
    ensures prefix + p in Flatten(nodes, prefix)
    decreases |p|
  {
    var k := Text.IndexOf(p, '/');
    var found := Find(nodes, p[..k]);
    var n := found.value;
    var i :| 0 <= i < |nodes| && nodes[i] == n;
    if k == |p| {
      assert p[..k] == p;
      assert Entries(n, prefix) == [prefix + p];
    } else {
      var rest := p[k + 1..];
      Text.IndexOfFound(p, '/');
      assert p == p[..k] + "/" + rest;
      FoundIsListed(n.children, prefix + n.name + "/", rest);
      assert prefix + n.name + "/" + rest == prefix + p;
    }
    FlattenMember(nodes, prefix, prefix + p);
  }

  /** A base path that is not a directory is listed as the single line
      "File: <name>", and clicking it never reloads: nothing lies below a
      file. */
  lemma LeftTreeFile(root: Node)
    requires root.File?
    ensures LeftTree(root) == ["File: " + root.name]
    ensures forall e :: e in LeftTree(root) ==> !IsRegularFileAt(root, e)
  {
  }

  /** A listed entry of a directory base path joined to it names a file,
      and every file below the base path is listed. */
  lemma LeftTreeListsFiles(root: Node, p: string)
    requires root.Dir? && WellFormedAll(root.children)
    ensures p in LeftTree(root) <==> Lookup(root.children, p).Some? && Lookup(root.children, p).value.File?
  {
    if p in LeftTree(root) {
      ClickOnListedEntry(root, p);
    }
    if Lookup(root.children, p).Some? && Lookup(root.children, p).value.File? {
      FoundIsListed(root.children, "", p);
      assert "" + p == p;
    }
  }
}
