/** The directory-tree builder `build_tree_json` (md_tree.py:44-149).

    `MakeNodeSpec` and `ChildrenSpec` say, as functions, what `make_node`
    computes and how it changes the shared set of visited directory
    identities (`seen_inodes`): the set is threaded through the walk by
    value. `TreeBuilder` is the builder itself, an object holding that set
    as a field, whose recursive `MakeNode` method appends the children one
    by one in a loop and is proved to agree with the functions. */
module Tree {
  import opened Strings
  import opened FileSystem
  import opened Listing

  /** The options of `build_tree_json`. `maxDepth` is a Python int: 0 means
      unlimited, and any other value cuts off every directory deeper than it. */
  datatype Options = Options(maxDepth: int, includeHidden: bool, showSizes: bool,
                             excludes: set<string>, followSymlinks: bool)

  /** DEFAULT_EXCLUDES (md_tree.py:10-18). */
  const DefaultExcludes: set<string> :=
    {".DS_Store", "__pycache__", "node_modules", ".git", ".idea", ".venv", "venv"}

  /** The reason recorded on an entry whose directory probe was refused. */
  const PermissionDenied: string := "permission_denied"

  /** The optional size of a file node: absent when sizes are not shown, the
      byte count (rendered by `HumanSize.HumanSizeOf`) when `getsize`
      succeeds, the "?" marker when it fails. */
  datatype SizeField = NotShown | Measured(bytes: nat) | Unmeasured

  /** The output tree: one case per node "type". */
  datatype Node =
    | Dir(name: string, relpath: string, children: seq<Node>, cycleDetected: bool)
    | File(name: string, relpath: string, isLink: bool, ext: string, size: SizeField)
    | Unknown(name: string, relpath: string, error: string)

  /** `should_skip` (md_tree.py:57-60). */
  predicate ShouldSkip(o: Options, name: string)
  {
    name in o.excludes || (!o.includeHidden && |name| > 0 && name[0] == '.')
  }

  /** The relative path of a child (md_tree.py:96). */
  function JoinRel(relpath: string, name: string): string
  {
    if relpath == "" then name else relpath + "/" + name
  }

  /** `relpath or "."`: the relpath recorded on a directory node. */
  function DirRelpath(relpath: string): string
  {
    if relpath == "" then "." else relpath
  }

  /** `max_depth and depth > max_depth` (md_tree.py:82). */
  predicate DepthCut(o: Options, depth: nat)
  {
    o.maxDepth != 0 && depth > o.maxDepth
  }

  function SizeFieldOf(o: Options, e: Entry): SizeField
  {
    if !o.showSizes then NotShown
    else match SizeOf(e)
      case Some(bytes) => Measured(bytes)
      case None => Unmeasured
  }

  /** The file node of an entry recorded at `relpath` (md_tree.py:114-128, 133-146). */
  function FileNode(o: Options, e: Entry, relpath: string): Node
  {
    File(e.name, relpath, IsLink(e), Ext(e.name), SizeFieldOf(o, e))
  }

  /** `make_node(path, relpath, depth)` with `seen_inodes` equal to `seen`
      on entry: the node, and the set on exit. */
  function MakeNodeSpec(o: Options, e: Entry, relpath: string, depth: nat, seen: set<Identity>)
    : (r: (Node, set<Identity>))
    ensures r.0.name == e.name
    ensures r.0.Dir? <==> StatIsDir(e, o.followSymlinks)
    ensures r.0.Dir? ==> r.0.relpath == DirRelpath(relpath)
    ensures !r.0.Dir? ==> r.0 == FileNode(o, e, if relpath == "" then e.name else relpath)
    ensures seen <= r.1
    ensures !o.followSymlinks ==> r.1 == seen
    decreases e, 1
  {
    if StatIsDir(e, o.followSymlinks) then
      var node := Dir(e.name, DirRelpath(relpath), [], false);
      if DepthCut(o, depth) then (node, seen)
      else if o.followSymlinks && IdentityOf(e) in seen then (node.(cycleDetected := true), seen)
      else
        var seen1 := if o.followSymlinks then seen + {IdentityOf(e)} else seen;
        var kids := ChildrenSpec(o, e, IterEntries(e), 0, relpath, depth, seen1);
        (node.(children := kids.0), kids.1)
    else
      (FileNode(o, e, if relpath == "" then e.name else relpath), seen)
  }

  /** One pass of the loop of `make_node` for an entry that is not skipped:
      the child appended for `e`, recorded at `rel` one level down, and
      `seen_inodes` afterwards (md_tree.py:99-128). An entry that `scandir`
      reports as a directory is handed to `make_node`, which makes a `file`
      node of it when its own `stat` fails. */
  function ChildSpec(o: Options, e: Entry, rel: string, depth: nat, seen: set<Identity>)
    : (r: (Node, set<Identity>))
    ensures r.0.name == e.name
    ensures r.0.Dir? <==> StatIsDir(e, o.followSymlinks)
    ensures r.0.Unknown? <==> o.followSymlinks && e.DeniedLink?
    ensures seen <= r.1
    ensures !o.followSymlinks ==> r.1 == seen
    decreases e, 2
  {
    if o.followSymlinks && e.DeniedLink? then (Unknown(e.name, rel, PermissionDenied), seen)
    else if IsDir(e, o.followSymlinks) then MakeNodeSpec(o, e, rel, depth + 1, seen)
    else (FileNode(o, e, rel), seen)
  }

  /** The loop of `make_node` from position `i` of `order`, the sorted
      listing of the directory `parent` found at `relpath` and `depth`: the
      children it appends, and `seen_inodes` afterwards. */
  function ChildrenSpec(o: Options, parent: Entry, order: seq<Entry>, i: nat, relpath: string,
                        depth: nat, seen: set<Identity>): (r: (seq<Node>, set<Identity>))
    requires parent.DirEntry? && i <= |order| && forall x :: x in order ==> x in parent.entries
    ensures seen <= r.1
    ensures !o.followSymlinks ==> r.1 == seen
    decreases parent, 0, |order| - i
  {
    if i == |order| then ([], seen)
    else if ShouldSkip(o, order[i].name) then ChildrenSpec(o, parent, order, i + 1, relpath, depth, seen)
    else
      assert order[i] in parent.entries;
      var child := ChildSpec(o, order[i], JoinRel(relpath, order[i].name), depth, seen);
      var rest := ChildrenSpec(o, parent, order, i + 1, relpath, depth, child.1);
      ([child.0] + rest.0, rest.1)
  }

  /** `build_tree_json`: the root is made at depth 0 with an empty relpath
      and nothing seen (md_tree.py:55, 149). */
  function BuildTree(o: Options, root: Entry): Node
  {
    MakeNodeSpec(o, root, "", 0, {}).0
  }

  /** The builder: the options and `seen_inodes` that the nested functions
      of `build_tree_json` share. */
  class TreeBuilder {
    const opts: Options
    var seen: set<Identity>

    constructor (opts: Options)
      ensures this.opts == opts && seen == {}
    {
      this.opts := opts;
      seen := {};
    }

    /** `make_node`: builds the node of `e`, adding the identities of the
        directories it expands to `seen` when links are followed. */
    method MakeNode(e: Entry, relpath: string, depth: nat) returns (node: Node)
      modifies this
      ensures (node, seen) == MakeNodeSpec(opts, e, relpath, depth, old(seen))
      decreases e, 1
    {
      if !StatIsDir(e, opts.followSymlinks) {
        return FileNode(opts, e, if relpath == "" then e.name else relpath);
      }
      node := Dir(e.name, DirRelpath(relpath), [], false);
      if DepthCut(opts, depth) {
        return;
      }
      if opts.followSymlinks {
        var ino := IdentityOf(e);
        if ino in seen {
          return node.(cycleDetected := true);
        }
        seen := seen + {ino};
      }
      var children := AppendChildren(e, IterEntries(e), relpath, depth);
      node := node.(children := children);
    }

    /** The body of the loop of `make_node` for an entry that is not skipped. */
    method MakeChild(e: Entry, rel: string, depth: nat) returns (node: Node)
      modifies this
      ensures (node, seen) == ChildSpec(opts, e, rel, depth, old(seen))
      decreases e, 2
    {
      if opts.followSymlinks && e.DeniedLink? {
        node := Unknown(e.name, rel, PermissionDenied);
      } else if IsDir(e, opts.followSymlinks) {
        node := MakeNode(e, rel, depth + 1);
      } else {
        node := FileNode(opts, e, rel);
      }
    }

    /** The loop of `make_node` (md_tree.py:93-128) over the sorted listing
        `order` of the directory `parent`. */
    method AppendChildren(parent: Entry, order: seq<Entry>, relpath: string, depth: nat)
      returns (children: seq<Node>)
      requires parent.DirEntry? && forall x :: x in order ==> x in parent.entries
      modifies this
      ensures (children, seen) == ChildrenSpec(opts, parent, order, 0, relpath, depth, old(seen))
      decreases parent, 0
    {
      ghost var total := ChildrenSpec(opts, parent, order, 0, relpath, depth, seen);
      children := [];
      var i := 0;
      while i < |order|
        invariant 0 <= i <= |order|
        invariant children + ChildrenSpec(opts, parent, order, i, relpath, depth, seen).0 == total.0
        invariant ChildrenSpec(opts, parent, order, i, relpath, depth, seen).1 == total.1
      {
        var entry := order[i];
        if !ShouldSkip(opts, entry.name) {
          assert entry in parent.entries;
          var node := MakeChild(entry, JoinRel(relpath, entry.name), depth);
          ghost var after := ChildrenSpec(opts, parent, order, i + 1, relpath, depth, seen);
          assert (children + [node]) + after.0 == children + ([node] + after.0);
          children := children + [node];
        }
        i := i + 1;
      }
      assert ChildrenSpec(opts, parent, order, i, relpath, depth, seen) == ([], seen);
      assert children + [] == children;
    }
  }

  /** `build_tree_json(root, ...)` on a fresh builder. */
  method BuildTreeJson(root: Entry, opts: Options) returns (tree: Node)
    ensures tree == BuildTree(opts, root)
  {
    var builder := new TreeBuilder(opts);
    tree := builder.MakeNode(root, "", 0);
  }
}
