# md_tree core, modelled in Dafny

`md_tree.py` walks a directory and builds a JSON tree of it. It cuts the
serialized tree into chunks that fit a language model's budget. It sends
each chunk off for naming and reorganisation advice, and joins the replies
into one Markdown document. This project models the deterministic parts of
that pipeline and proves what they promise:

- **Chunker** (`chunker.dfy`): `chunk_text`, the line-aware splitter. The
  cut rule is stated exactly. The chunks concatenate back to the text, and
  each has between 1 and `max_chars` characters. A non-final chunk either
  ends with a newline beyond 60% of the budget, or fills the whole window
  when that window has no such newline. The method `ChunkText` is the
  source's `while` loop, proved equal to the specification function `Chunks`.
- **Escape** (`escape.dfy`): `escape_md`. The thirteen successive
  `replace` passes are proved to equal a one-pass escape. Each special
  character gets exactly one backslash (shown by a round trip through
  `Unescape`), the length grows by the number of specials, and plain names
  come back unchanged.
- **HumanSize** (`human_size.dfy`): the loop of `human_size` that picks
  the unit. Below 1024 the text is the exact byte count followed by `B`.
  Otherwise the unit is the largest power of 1024 not above the size, capped
  at PB.
- **FileSystem**, **Listing**, **Tree**, **TreeProperties** (`filesystem.dfy`,
  `listing.dfy`, `tree.dfy`, `tree_props.dfy`): `build_tree_json` over a
  filesystem given as a value.
  - Directories carry a `(st_dev, st_ino)` identity, which may be missing
    when `stat` fails, plus a readable flag and their entries.
  - Files carry an optional size.
  - A `DeniedLink` is a link whose `is_dir` probe raises `PermissionError`
    when links are followed.
  - `iter_entries` is a proved sort, ordered by the key (not a directory,
    lower-cased name).
  - `make_node` is modelled twice. `MakeNodeSpec` is a pure function that
    threads the `seen_inodes` set by value. `TreeBuilder` is a class whose
    field `seen` is that set, and whose recursive methods append children
    in a loop; they are proved equal to the function.
  - Two directory tests are kept apart. The sort key and the loop ask
    `scandir` (`entry.is_dir`), while `make_node` itself asks `stat`
    (`os.path.isdir`). A directory that is listed but cannot be stat'ed is
    therefore handed to `make_node` and becomes a `file` node. A concrete
    tree shows that such a node breaks "directories first" order.
  - The properties proved of the function cover filtering, order, the
    depth cut-off, relative paths and their uniqueness, cycle detection
    (following links, no directory identity is expanded twice), links left
    opaque when not followed, and how entries correspond to children.
- **Responses** (`responses.dfy`): the assembly of the per-chunk replies.
  After every reply except the last comes the separator
  `"\n---\n_Chunk i/n end._\n"`. The list is joined with newlines,
  stripped with Python's whitespace set, and ends with one newline. The
  outputs list is proved to alternate between replies and separators. Its
  join is proved equal to an independent transcript. When the outer replies
  carry no surrounding whitespace, nothing is stripped.
- **Strings** (`strings.dfy`) holds shared helpers:
  - `str.rfind`;
  - ASCII `str.lower`;
  - Python's string order, proved total, transitive and antisymmetric;
  - decimal rendering of a natural number, proved to round-trip.

The source's float test `nl > start + max_chars * 0.6` is modelled as the
integer comparison `5 * (nl - start) > 3 * max_chars`. The two agree for
every index and budget below 2^50. They can differ from 2^51 on: with
`start = 2^51`, `max_chars = 3` and a newline at `start + 2`, the float sum
rounds up to `start + 2` and the source does not cut there.

## Model

| member | source | states |
|---|---|---|
| Strings.RFind | md_tree.py:188 | the result is -1 when `c` does not occur in `s[lo..hi]`, and otherwise the last index of `c` in that window |
| Strings.Lower | md_tree.py:41 | same length; every ASCII capital is lowered and every other character is kept |
| Strings.LexLeTotal | md_tree.py:41 | Python's string order compares any two strings |
| Strings.LexLeTransitive | md_tree.py:41 | Python's string order is transitive |
| Strings.LexLeAntisymmetric | md_tree.py:41 | two strings that are each at most the other are equal |
| Strings.DecimalString | md_tree.py:26 | `str(n)` is a non-empty string of digits with no leading zero |
| Strings.DecimalRoundTrip | md_tree.py:26 | reading back the decimal text of `n` gives `n` |
| Strings.DecimalInjective | md_tree.py:26 | different numbers render differently |
| Chunker.Cut | md_tree.py:186-190 | the chunk starting at `start` is non-empty and at most `max_chars` long, and reaches the end exactly when the rest fits. When cut short, no newline of the window lies after the cut. The chunk then ends with a newline beyond 60% of the budget, or is the whole window and the window has no newline beyond 60% |
| Chunker.ChunksFromConcat | md_tree.py:184-192 | the chunks taken from `start` concatenate to `text[start..]` |
| Chunker.CutIsRespected | md_tree.py:186-191 | a chunk that stops short of the end obeys the cut rule against the text after it |
| Chunker.ChunksFromShape | md_tree.py:184-192 | there are no chunks exactly when `start` is the end. Every chunk has 1 to `max_chars` characters, and every non-final chunk respects the cut rule against the text after it |
| Chunker.ChunksProperties | md_tree.py:179-193 | on every input on which `chunk_text` returns, there is no chunk exactly when the text is empty and the budget negative, and the chunks concatenate to the text. A fitting text gives exactly `[text]`. Otherwise the length bounds and the cut rule hold for every chunk |
| Chunker.NonFinalChunksAreLarge | md_tree.py:187-190 | every chunk but the last holds more than 60% of the budget |
| Chunker.ChunkText | md_tree.py:179-193 | the loop that advances `start` returns exactly the specified chunks |
| Escape.ReplaceStep | md_tree.py:31-32 | replace pass k turns the text with the first k specials escaped into the text with the first k+1 escaped, because the backslash is handled first |
| Escape.EscapeMd | md_tree.py:30-33 | the thirteen passes produce the one-pass escape of the name |
| Escape.EscapedLength | md_tree.py:30-33 | the escaped name is longer by exactly the number of special characters |
| Escape.EscapedPlain | md_tree.py:30-33 | a name with no special character comes back unchanged |
| Escape.UnescapeEscaped | md_tree.py:30-33 | each special character is escaped exactly once, so unescaping gives the name back |
| HumanSize.HumanSizeOf | md_tree.py:23-28 | bytes are shown exactly when the size is below 1024, as the decimal count followed by `B`. Otherwise the unit index k is between 1 and 5, with 1024^k <= size, and size < 1024^(k+1) unless the unit is PB |
| FileSystem.Listing | md_tree.py:36-40 | `scandir` of a directory: a readable one lists exactly its entries, and one that raises `PermissionError` lists nothing |
| FileSystem.Ext | md_tree.py:119 | `splitext(name)[1]` is empty exactly when every dot of the name has only dots before it. Otherwise it is the suffix from the last dot, with a non-dot character somewhere before that dot |
| Listing.KeyLeTotal | md_tree.py:41 | any two sort keys are comparable |
| Listing.KeyLeTransitive | md_tree.py:41 | the sort-key order is transitive |
| Listing.PrependSorted | md_tree.py:41 | an entry that sorts at or before every entry of a sorted listing keeps it sorted when put in front |
| Listing.InsertSorted | md_tree.py:41 | inserting into a sorted listing keeps it sorted and adds exactly that entry |
| Listing.SortEntries | md_tree.py:41 | the result is sorted with directories first and then by lower-cased name, and it is a permutation of the input |
| Listing.IterEntries | md_tree.py:35-42 | the directory's listing in sort order, a permutation of what `scandir` reports (nothing when unreadable) |
| Listing.InsertDistinct | md_tree.py:41 | inserting an entry whose name is new into a listing with distinct names keeps the names distinct |
| Listing.SortDistinct | md_tree.py:41 | sorting a listing with distinct names keeps them distinct |
| Listing.IterEntriesDistinct | md_tree.py:35-42 | the sorted listing of a directory whose entries have distinct names has distinct names |
| Tree.MakeNodeSpec | md_tree.py:69-147 | the node has the entry's name. It is a `dir` node, with relpath `relpath or "."`, exactly when `os.path.isdir` holds (the entry is a directory that can be stat'ed, and not a link unless links are followed). Otherwise it is the `file` node of the entry at `relpath or name`. The seen set only grows, and stays unchanged when links are not followed |
| Tree.ChildSpec | md_tree.py:97-128 | a child has its entry's name. It is `unknown` exactly when links are followed and the probe is refused. It is `dir` exactly when `make_node`'s own `isdir` test holds, so a listed directory that cannot be stat'ed becomes a `file`. The seen set only grows, and stays unchanged without following |
| Tree.ChildrenSpec | md_tree.py:93-128 | the loop over the listing only adds to the seen set, and adds nothing when links are not followed |
| Tree.TreeBuilder.constructor | md_tree.py:55 | a builder starts with the given options and an empty seen set |
| Tree.TreeBuilder.MakeNode | md_tree.py:69-147 | `make_node` returns the specified node and leaves `seen` as the specification says |
| Tree.TreeBuilder.MakeChild | md_tree.py:97-128 | one pass of the loop appends the specified child and updates `seen` accordingly |
| Tree.TreeBuilder.AppendChildren | md_tree.py:93-128 | the loop appends exactly the specified children, in order, and leaves `seen` as specified |
| Tree.BuildTreeJson | md_tree.py:44-149 | a fresh builder started at depth 0 with relpath "" returns the specified tree |
| TreeProperties.MakeNodeNoSkipped | md_tree.py:57-60 | no node anywhere below a built node has an excluded name, nor a hidden one unless hidden names are included |
| TreeProperties.ChildrenNoSkipped | md_tree.py:93-95 | no child appended by the loop, nor anything below it, has a skipped name |
| TreeProperties.MakeNodeDepth | md_tree.py:82-83 | a directory met deeper than a non-zero `max_depth` has no children and no cycle mark, and this holds at every level below |
| TreeProperties.ChildrenDepth | md_tree.py:82-112 | every child appended by the loop is built one level deeper and respects the cut-off |
| TreeProperties.MakeNodeDepthIrrelevant | md_tree.py:82 | with `max_depth == 0` the depth at which a node is built makes no difference |
| TreeProperties.ChildrenDepthIrrelevant | md_tree.py:82 | with `max_depth == 0` the children and the seen set do not depend on the depth |
| TreeProperties.OrderedCons | md_tree.py:41 | the child made from entry i of a sorted listing, put in front of the children made from later entries, keeps them sorted and above every earlier entry |
| TreeProperties.MakeNodeOrdered | md_tree.py:93-112 | when links are not followed and every listed directory below can be stat'ed, every directory's children at every level have directories first, then names in ascending lower-cased order |
| TreeProperties.ChildrenOrdered | md_tree.py:93-128 | when links are not followed and every directory below the parent can be stat'ed, the children appended from a sorted listing are sorted and ordered at every level, and sort at or after every entry already passed |
| TreeProperties.MakeNodeLinksOpaque | md_tree.py:86-109 | without following links, no `unknown` node and no cycle mark appear anywhere |
| TreeProperties.ChildrenLinksOpaque | md_tree.py:86-109 | without following links, no child appended by the loop, nor anything below it, is `unknown` or marked as a cycle |
| TreeProperties.MakeNodeSeenIrrelevant | md_tree.py:86-91 | without following links the seen set is never consulted: the same tree is built whatever it holds |
| TreeProperties.ChildrenSeenIrrelevant | md_tree.py:86-91 | without following links the loop's children do not depend on the seen set |
| TreeProperties.MakeNodeRelpaths | md_tree.py:79-96 | at every level, a child's relpath is the parent's relpath joined with `/` to its name, or its bare name directly under the root |
| TreeProperties.ChildrenRelpaths | md_tree.py:96 | every child appended by the loop records the joined relpath, and so does everything below it |
| TreeProperties.NestedRelpaths | md_tree.py:79-96 | a directory's relpath followed by distinct paths below it is a distinct list of paths under it |
| TreeProperties.MakeNodeRelpathsUnique | md_tree.py:79-96 | below the root, when every directory lists valid, distinct names, the relpaths of a node and of everything below it are distinct and all lie under the node's relpath |
| TreeProperties.ChildRelpathsUnique | md_tree.py:96-128 | the child appended for one entry has distinct relpaths, all under its joined relpath |
| TreeProperties.SiblingRelpaths | md_tree.py:96 | the paths under one child and the paths under later siblings with other names are disjoint, and each starts with the name of its entry |
| TreeProperties.ChildrenRelpathsUnique | md_tree.py:93-128 | the relpaths of all children appended by the loop, and of everything below them, are distinct, lie below the parent, and start with the name of a listed entry |
| TreeProperties.KeptChildRelpathsUnique | md_tree.py:96-112 | the same for the pass of the loop whose entry is not skipped |
| TreeProperties.RootRelpaths | md_tree.py:79 | the root's relpath "." differs from every path below it |
| TreeProperties.RelpathsUnique | md_tree.py:79-96 | when every directory lists valid, distinct names, no two nodes of the built tree have the same relpath |
| TreeProperties.ExpansionsJoin | md_tree.py:86-91 | two runs of fresh, distinct expansions, the second started from the set the first left, form one such run |
| TreeProperties.MakeNodeExpandsOnce | md_tree.py:55-91 | when links are followed, the directories expanded below a node have distinct identities, none already in `seen_inodes`, and `seen_inodes` afterwards is the old set plus exactly those identities |
| TreeProperties.ChildrenExpandOnce | md_tree.py:86-112 | the same for the loop over a directory's entries |
| TreeProperties.ChildrenOfCons | md_tree.py:111-128 | the entry-to-child correspondence extends by one matching pair in front |
| TreeProperties.ChildrenMatchEntries | md_tree.py:93-128 | each entry the filter keeps becomes one child, in order, and no other entry does. The child has the entry's name. It is `dir` exactly for directories that pass `make_node`'s `isdir` test (so not for a listed directory that cannot be stat'ed), and `unknown` exactly for refused probes when following, with error `permission_denied`. A file child has the entry's link flag, extension and size field |
| TreeProperties.RootFile | md_tree.py:131-149 | a root that fails `make_node`'s `isdir` test yields a single `file` node whose relpath is its own name |
| TreeProperties.DepthCutDirectory | md_tree.py:82-91 | a directory beyond the cut-off is an empty `dir` node. The depth test runs before the cycle test, so its identity is not added to the seen set |
| TreeProperties.CycleDetection | md_tree.py:86-91 | when following links, a directory already seen becomes an empty `dir` node with `cycle_detected` and the seen set is unchanged. Otherwise its identity is in the seen set afterwards and no cycle is reported |
| TreeProperties.ExpandedDirectory | md_tree.py:93-95 | an expanded directory has one child per kept entry of its sorted listing, with matching names. An unreadable directory has no children |
| TreeProperties.ExampleListing | md_tree.py:35-42 | a root holding the file "a.txt" and the directory "b" lists "b" first |
| TreeProperties.ExampleChildren | md_tree.py:93-128 | with the default options, the directory "b" that cannot be stat'ed and the file "a.txt" become two `file` children, "b" first |
| TreeProperties.UnstattableDirectoryListedAsFile | md_tree.py:69-112 | a listed directory that cannot be stat'ed becomes a `file` node that sorts before a file with a smaller name, so the children are not in "directories first" order |
| Responses.LStrip | md_tree.py:239 | the longest suffix not starting with whitespace; everything removed is whitespace |
| Responses.RStrip | md_tree.py:239 | the longest prefix not ending with whitespace; everything removed is whitespace |
| Responses.Strip | md_tree.py:239 | the result is empty exactly when the text is all whitespace, and otherwise starts and ends with non-whitespace |
| Responses.StripBlank | md_tree.py:239 | stripping from the left and then from the right leaves nothing exactly when the text is all whitespace, and otherwise leaves non-whitespace in front |
| Responses.StripWindow | md_tree.py:239 | the stripped text is a slice of the text with only whitespace before it and only whitespace after it |
| Responses.StripUnchanged | md_tree.py:239 | text with non-whitespace at both ends is not changed by stripping |
| Responses.StripIdempotent | md_tree.py:239 | stripping twice is stripping once |
| Responses.DigitsBeforeSlash | md_tree.py:237 | two digit strings followed by text that starts with `/` are equal when the whole texts are |
| Responses.SeparatorsDistinct | md_tree.py:237 | two separators for the same total are equal only for the same chunk number |
| Responses.OutputsFromLength | md_tree.py:214-237 | from chunk i+1 on, the outputs hold 2m-1 entries for the m remaining replies |
| Responses.OutputsFromAt | md_tree.py:214-237 | each entry of the outputs from chunk i+1 on is the entry at the same place in the whole list: a reply at an even position, the following separator at an odd one |
| Responses.OutputsShape | md_tree.py:212-237 | no replies give an empty outputs list. n replies give 2n-1 entries: reply k+1 at position 2k, and separator `k+1/n` after every reply but the last |
| Responses.JoinOutputsFrom | md_tree.py:239 | joining the outputs from chunk i with newlines gives each reply followed by newline, separator and newline, except after the last |
| Responses.JoinOutputs | md_tree.py:239 | the newline join of the whole outputs list is the transcript of the replies and separators |
| Responses.Assembled | md_tree.py:239 | the returned text ends with a newline, and what precedes it neither starts nor ends with whitespace |
| Responses.TranscriptEnds | md_tree.py:237-239 | the transcript starts with the first reply and ends with the last one |
| Responses.AssembledExactly | md_tree.py:212-239 | when the first reply starts and the last reply ends with non-whitespace, the text is exactly the transcript plus a newline |
| Responses.SingleReply | md_tree.py:236-239 | one chunk gives its reply, stripped, plus a newline, with no separator |
| Responses.AssembleResponses | md_tree.py:212-239 | the loop over the chunks and the final join return the specified text |

## Left out

- The language-model client, the `responses.create` call, the prompt
  templates and the fallback parsing of reply objects (md_tree.py:150-177,
  202-209, 215-223 and 226-234). These are a network call into a foreign library; the replies
  are a parameter of `Responses.AssembleResponses`.
- `load_dotenv`, the API-key lookup and its `RuntimeError`, `main`,
  argument parsing, JSON serialisation, file writes and exit codes. These
  are environment plumbing and I/O.
- Real `os.scandir`, `os.stat`, `os.path.isdir`, `islink` and `getsize`.
  The filesystem is a value (`FileSystem.Entry`). Link resolution is already
  applied in it, and a link is marked by its `isLink` flag.
- `os.path.abspath`/`expanduser` of the root, and the root name
  `basename(path) or relpath`. A root such as `/` with an empty basename is
  not modelled; the root node takes the entry's own name.
- `scandir` failures other than `PermissionError`, which propagate and end
  the program in the source.
- HumanSize.HumanSizeOf: the one-decimal float text of the scaled value for
  KB and above is not produced. Only the unit, and the exact text for
  bytes, are stated.
- Tree.SizeFieldOf: `Measured(bytes)` stands for both the `size` text
  (rendered by `human_size`) and the `size_bytes` field of a file node.
- Strings.Lower: lowers ASCII letters only. Python's `str.lower` also
  folds non-ASCII letters, so names with such letters may sort differently.
- Listing.SortEntries: the insertion sort is stable like Python's, but only
  sortedness and permutation are stated.
- Chunker.ChunkText: a budget below 1 on a non-empty text that does not
  fit is excluded by the precondition (`Chunker.Returns`), because the
  source's loop then never reaches the end of the text and never ends.
  The empty text with a negative budget is modelled: it gives no chunk, as
  in the source.
- Chunker.Cut: the float test is modelled by integer arithmetic, which
  agrees with it while indices and budget stay below 2^50, not beyond.
- TreeProperties.MakeNodeOrdered: order is stated only when links are not
  followed and every listed directory can be stat'ed (`StatSucceeds`).
  When links are followed, a directory reached through a link sorts by
  `is_dir(follow_symlinks=False)`, which is false for it, while the node
  built is a `dir`. A listed directory that cannot be stat'ed sorts as a
  directory but becomes a `file` node
  (`TreeProperties.UnstattableDirectoryListedAsFile`).
- TreeProperties.ChildrenOrdered: the same two hypotheses as
  `MakeNodeOrdered`, for the same reasons: links not followed, and every
  directory below the parent can be stat'ed.
- Tree.ChildSpec: when links are followed, an `is_dir` probe that raises an
  `OSError` other than `PermissionError` (`ELOOP` on a link loop, `ENOTDIR`)
  propagates out of `build_tree_json` and ends the program in the source.
  The model has no such entry; only `DeniedLink`, the refused probe, exists.
- FileSystem.IdentityOf: the `(-1, -1)` fallback of `inode_of` is kept, but
  `make_node` asks for the identity only after the same `stat` succeeded,
  so it is reached only when the filesystem changes between the two calls.
  The filesystem here is a value that does not change, so the fallback is
  never taken.
- The filesystem is an inductive value, so the model describes only finite
  trees. A cyclic link structure is represented by a finite unfolding of
  it, and nothing ties two entries with equal identities to equal contents.
  `TreeProperties.MakeNodeExpandsOnce` states that no identity is expanded
  twice, but termination of the source's walk on a real cycle is not
  proved.
- TreeProperties.RelpathsUnique: assumes every directory lists valid,
  distinct names (`WellNamed`), as a real directory does; names with `/`,
  `.` or `..`, or repeated names, are not excluded by the value type.
