/** The filesystem as the tree builder sees it, as a value: what
    `os.scandir`, `DirEntry.is_dir`, `os.path.islink`, `os.stat` and
    `os.path.getsize` would report for each entry. Nothing here touches a
    real filesystem; a symbolic link is an entry whose `isLink` flag is set
    and whose other fields describe its target. */
module FileSystem {
  import opened Strings

  datatype Option<T> = None | Some(value: T)

  /** The (st_dev, st_ino) pair that identifies a directory. */
  datatype Identity = Identity(dev: int, ino: int)

  /** What `inode_of` returns when `os.stat` fails (md_tree.py:66-67). */
  const Unstattable: Identity := Identity(-1, -1)

  datatype Entry =
      /** A directory, or a symbolic link to one. `id` is None when `os.stat`
          fails on it, `size` is what `os.path.getsize` reports (None when it
          fails), and `readable` is false when listing it raises
          PermissionError. A link whose `stat` fails is a `DeniedLink` or a
          dangling `FileEntry`, and a link's `id` is read only when links are
          followed, so a link with `id == None` stands for no real entry. */
    | DirEntry(name: string, isLink: bool, id: Option<Identity>, size: Option<nat>,
               readable: bool, entries: seq<Entry>)
      /** Anything that is not a directory (a dangling link included). */
    | FileEntry(name: string, isLink: bool, size: Option<nat>)
      /** A symbolic link whose target cannot be examined: asking whether it
          is a directory raises PermissionError when links are followed, and
          answers no when they are not. */
    | DeniedLink(name: string)

  /** `entry.is_dir(follow_symlinks=follow)` for an entry whose probe does
      not raise: what `scandir` reports about the entry, with no `stat` of a
      directory that is not a link. The sort key of `iter_entries` and the
      loop of `make_node` ask this (md_tree.py:41, 101). */
  predicate IsDir(e: Entry, followSymlinks: bool)
  {
    e.DirEntry? && (followSymlinks || !e.isLink)
  }

  /** The test at the head of `make_node` (md_tree.py:71): `os.path.isdir`,
      which is false when `os.stat` fails, and, when links are not followed,
      `not os.path.islink` as well. A directory that `scandir` lists but
      that cannot be stat'ed (its parent is readable but not searchable)
      passes `IsDir` and fails this test. */
  predicate StatIsDir(e: Entry, followSymlinks: bool)
  {
    IsDir(e, followSymlinks) && e.id.Some?
  }

  /** `os.path.islink`. */
  predicate IsLink(e: Entry)
  {
    match e
    case DirEntry(_, isLink, _, _, _, _) => isLink
    case FileEntry(_, isLink, _) => isLink
    case DeniedLink(_) => true
  }

  /** `os.path.getsize`, None when it raises. */
  function SizeOf(e: Entry): Option<nat>
  {
    match e
    case DirEntry(_, _, _, size, _, _) => size
    case FileEntry(_, _, size) => size
    case DeniedLink(_) => None
  }

  /** `inode_of`: the identity of a directory, any stat failure mapped to
      (-1, -1). `make_node` asks for it only after the same `stat` succeeded
      at md_tree.py:71, so over a filesystem that does not change between
      the two calls the fallback is never taken. */
  function IdentityOf(e: Entry): Identity
    requires e.DirEntry?
  {
    if e.id.Some? then e.id.value else Unstattable
  }

  /** `os.scandir` of a directory; an unreadable one lists nothing (md_tree.py:39-40). */
  function Listing(e: Entry): (r: seq<Entry>)
    requires e.DirEntry?
    ensures !e.readable ==> r == []
    ensures e.readable ==> r == e.entries
  {
    if e.readable then e.entries else []
  }

  predicate AllDots(s: string)
  {
    forall i :: 0 <= i < |s| ==> s[i] == '.'
  }

  /** `os.path.splitext(name)[1]`: from the last dot to the end, unless only
      dots precede that dot (a leading-dot name such as ".bashrc" has none). */
  function Ext(name: string): (r: string)
    ensures r == [] || (&& |r| <= |name| && r == name[|name| - |r|..] && r[0] == '.'
                        && (forall i :: 1 <= i < |r| ==> r[i] != '.')
                        && !AllDots(name[..|name| - |r|]))
    ensures r == [] <==> forall i :: 0 <= i < |name| && name[i] == '.' ==> AllDots(name[..i])
  {
    var dot := RFind(name, '.', 0, |name|);
    if dot == -1 then []
    else if AllDots(name[..dot]) then
      assert forall i :: 0 <= i < |name| && name[i] == '.' ==> AllDots(name[..i]) by {
        forall i | 0 <= i < |name| && name[i] == '.' ensures AllDots(name[..i]) {
          assert i <= dot;
        }
      }
      []
    else
      var r := name[dot..];
      assert name[..|name| - |r|] == name[..dot];
      r
  }
}
