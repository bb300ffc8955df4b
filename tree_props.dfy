/** What `build_tree_json` promises about the tree it builds, proved of
    `Tree.MakeNodeSpec` (and so, through `Tree.BuildTreeJson`, of the
    builder). Each recursive property comes as a pair of lemmas, one for a
    node and one for the loop over a directory's sorted listing, proved
    together by induction over the filesystem. */
module TreeProperties {
  import opened Strings
  import opened FileSystem
  import opened Listing
  import opened Tree

  // ---------------------------------------------------------------------
  // Filtering: no skipped name anywhere below the root (md_tree.py:57-60, 93-95)
  // ---------------------------------------------------------------------

  predicate NoSkippedBelow(o: Options, n: Node)
  {
    n.Dir? ==> forall c :: c in n.children ==> !ShouldSkip(o, c.name) && NoSkippedBelow(o, c)
  }

  lemma {:induction false} MakeNodeNoSkipped(o: Options, e: Entry, relpath: string, depth: nat,
                                             seen: set<Identity>)
    ensures NoSkippedBelow(o, MakeNodeSpec(o, e, relpath, depth, seen).0)
    decreases e, 1
  {
    if StatIsDir(e, o.followSymlinks) && !DepthCut(o, depth) && !(o.followSymlinks && IdentityOf(e) in seen) {
      var seen1 := if o.followSymlinks then seen + {IdentityOf(e)} else seen;
      ChildrenNoSkipped(o, e, IterEntries(e), 0, relpath, depth, seen1);
    }
  }

  lemma {:induction false} ChildrenNoSkipped(o: Options, parent: Entry, order: seq<Entry>, i: nat,
                                             relpath: string, depth: nat, seen: set<Identity>)
    requires parent.DirEntry? && i <= |order| && forall x :: x in order ==> x in parent.entries
    ensures forall c :: c in ChildrenSpec(o, parent, order, i, relpath, depth, seen).0 ==>
      !ShouldSkip(o, c.name) && NoSkippedBelow(o, c)
    decreases parent, 0, |order| - i
  {
    if i < |order| {
      if ShouldSkip(o, order[i].name) {
        ChildrenNoSkipped(o, parent, order, i + 1, relpath, depth, seen);
      } else {
        var e := order[i];
        var child := ChildSpec(o, e, JoinRel(relpath, e.name), depth, seen);
        assert e in parent.entries;
        if IsDir(e, o.followSymlinks) {
          MakeNodeNoSkipped(o, e, JoinRel(relpath, e.name), depth + 1, seen);
        }
        ChildrenNoSkipped(o, parent, order, i + 1, relpath, depth, child.1);
      }
    }
  }

  // ---------------------------------------------------------------------
  // Depth cut-off: the root is at depth 0, and with a non-zero maxDepth a
  // directory deeper than it keeps no children (md_tree.py:82-83)
  // ---------------------------------------------------------------------

  predicate DepthRespected(o: Options, n: Node, depth: nat)
  {
    n.Dir? ==>
      && (DepthCut(o, depth) ==> n.children == [] && !n.cycleDetected)
      && forall c :: c in n.children ==> DepthRespected(o, c, depth + 1)
  }

  lemma {:induction false} MakeNodeDepth(o: Options, e: Entry, relpath: string, depth: nat,
                                         seen: set<Identity>)
    ensures DepthRespected(o, MakeNodeSpec(o, e, relpath, depth, seen).0, depth)
    decreases e, 1
  {
    if StatIsDir(e, o.followSymlinks) && !DepthCut(o, depth) && !(o.followSymlinks && IdentityOf(e) in seen) {
      var seen1 := if o.followSymlinks then seen + {IdentityOf(e)} else seen;
      ChildrenDepth(o, e, IterEntries(e), 0, relpath, depth, seen1);
    }
  }

  lemma {:induction false} ChildrenDepth(o: Options, parent: Entry, order: seq<Entry>, i: nat,
                                         relpath: string, depth: nat, seen: set<Identity>)
    requires parent.DirEntry? && i <= |order| && forall x :: x in order ==> x in parent.entries
    ensures forall c :: c in ChildrenSpec(o, parent, order, i, relpath, depth, seen).0 ==>
      DepthRespected(o, c, depth + 1)
    decreases parent, 0, |order| - i
  {
    if i < |order| {
      if ShouldSkip(o, order[i].name) {
        ChildrenDepth(o, parent, order, i + 1, relpath, depth, seen);
      } else {
        var e := order[i];
        var child := ChildSpec(o, e, JoinRel(relpath, e.name), depth, seen);
        assert e in parent.entries;
        if IsDir(e, o.followSymlinks) {
          MakeNodeDepth(o, e, JoinRel(relpath, e.name), depth + 1, seen);
        }
        ChildrenDepth(o, parent, order, i + 1, relpath, depth, child.1);
      }
    }
  }

  /** With maxDepth == 0 there is no cut-off: the depth a directory is met
      at makes no difference to what is built from it. */
  lemma {:induction false} MakeNodeDepthIrrelevant(o: Options, e: Entry, relpath: string,
                                                   d1: nat, d2: nat, seen: set<Identity>)
    requires o.maxDepth == 0
    ensures MakeNodeSpec(o, e, relpath, d1, seen) == MakeNodeSpec(o, e, relpath, d2, seen)
    decreases e, 1
  {
    if StatIsDir(e, o.followSymlinks) && !(o.followSymlinks && IdentityOf(e) in seen) {
      var seen1 := if o.followSymlinks then seen + {IdentityOf(e)} else seen;
      ChildrenDepthIrrelevant(o, e, IterEntries(e), 0, relpath, d1, d2, seen1);
    }
  }

  lemma {:induction false} ChildrenDepthIrrelevant(o: Options, parent: Entry, order: seq<Entry>, i: nat,
                                                   relpath: string, d1: nat, d2: nat, seen: set<Identity>)
    requires o.maxDepth == 0
    requires parent.DirEntry? && i <= |order| && forall x :: x in order ==> x in parent.entries
    ensures ChildrenSpec(o, parent, order, i, relpath, d1, seen)
         == ChildrenSpec(o, parent, order, i, relpath, d2, seen)
    decreases parent, 0, |order| - i
  {
    if i < |order| {
      if ShouldSkip(o, order[i].name) {
        ChildrenDepthIrrelevant(o, parent, order, i + 1, relpath, d1, d2, seen);
      } else {
        var e := order[i];
        var rel := JoinRel(relpath, e.name);
        assert e in parent.entries;
        if IsDir(e, o.followSymlinks) {
          MakeNodeDepthIrrelevant(o, e, rel, d1 + 1, d2 + 1, seen);
        }
        var child := ChildSpec(o, e, rel, d1, seen);
        assert child == ChildSpec(o, e, rel, d2, seen);
        ChildrenDepthIrrelevant(o, parent, order, i + 1, relpath, d1, d2, child.1);
      }
    }
  }

  // ---------------------------------------------------------------------
  // Order: directories first, then case-insensitive name (md_tree.py:41, 93)
  // ---------------------------------------------------------------------

  /** The sort key of `iter_entries`, read off an output node. */
  function NodeKey(n: Node): SortKey
  {
    SortKey(!n.Dir?, Lower(n.name))
  }

  predicate SortedNodes(ns: seq<Node>)
  {
    forall a, b :: 0 <= a < b < |ns| ==> KeyLe(NodeKey(ns[a]), NodeKey(ns[b]))
  }

  predicate OrderedBelow(n: Node)
  {
    n.Dir? ==> SortedNodes(n.children) && forall c :: c in n.children ==> OrderedBelow(c)
  }

  /** Every node of `ns` sorts at or after `key`. */
  predicate AllAbove(key: SortKey, ns: seq<Node>)
  {
    forall k :: 0 <= k < |ns| ==> KeyLe(key, NodeKey(ns[k]))
  }

  /** The child made from `order[i]`, put in front of the children made
      from the rest of a sorted listing, keeps them sorted and above the
      entries already passed. */
  lemma OrderedCons(order: seq<Entry>, i: nat, child: Node, rest: seq<Node>)
    requires Sorted(order) && i < |order| && NodeKey(child) == KeyOf(order[i])
    requires SortedNodes(rest) && forall j :: 0 <= j < i + 1 ==> AllAbove(KeyOf(order[j]), rest)
    ensures SortedNodes([child] + rest)
    ensures forall j :: 0 <= j < i ==> AllAbove(KeyOf(order[j]), [child] + rest)
  {
  }

  /** Every directory below `e` that `scandir` reports, links aside, can be
      stat'ed, so `make_node` expands it. */
  predicate StatSucceeds(e: Entry)
  {
    IsDir(e, false) ==> e.id.Some? && forall x :: x in e.entries ==> StatSucceeds(x)
  }

  /** When links are not followed and every directory can be stat'ed,
      every directory's children are ordered with directories first and by
      lower-cased name within each group. */
  lemma {:induction false} MakeNodeOrdered(o: Options, e: Entry, relpath: string, depth: nat,
                                           seen: set<Identity>)
    requires !o.followSymlinks && StatSucceeds(e)
    ensures OrderedBelow(MakeNodeSpec(o, e, relpath, depth, seen).0)
    decreases e, 1
  {
    if StatIsDir(e, o.followSymlinks) && !DepthCut(o, depth) {
      ChildrenOrdered(o, e, IterEntries(e), 0, relpath, depth, seen);
    }
  }

  lemma {:induction false} ChildrenOrdered(o: Options, parent: Entry, order: seq<Entry>, i: nat,
                                           relpath: string, depth: nat, seen: set<Identity>)
    requires !o.followSymlinks
    requires parent.DirEntry? && i <= |order| && forall x :: x in order ==> x in parent.entries
    requires Sorted(order) && forall x :: x in parent.entries ==> StatSucceeds(x)
    ensures var out := ChildrenSpec(o, parent, order, i, relpath, depth, seen).0;
      && SortedNodes(out)
      && (forall c :: c in out ==> OrderedBelow(c))
      && (forall j :: 0 <= j < i ==> AllAbove(KeyOf(order[j]), out))
    decreases parent, 0, |order| - i
  {
    if i < |order| {
      var e := order[i];
      var out := ChildrenSpec(o, parent, order, i, relpath, depth, seen).0;
      var rest := ChildrenSpec(o, parent, order, i + 1, relpath, depth, seen).0;
      ChildrenOrdered(o, parent, order, i + 1, relpath, depth, seen);
      if ShouldSkip(o, e.name) {
        assert out == rest;
      } else {
        var child := ChildSpec(o, e, JoinRel(relpath, e.name), depth, seen).0;
        assert out == [child] + rest;
        assert e in parent.entries && StatSucceeds(e);
        if IsDir(e, o.followSymlinks) {
          MakeNodeOrdered(o, e, JoinRel(relpath, e.name), depth + 1, seen);
        }
        assert NodeKey(child) == KeyOf(e);
        OrderedCons(order, i, child, rest);
      }
    }
  }

  // ---------------------------------------------------------------------
  // Links are opaque when not followed (md_tree.py:71, 86-91, 101)
  // ---------------------------------------------------------------------

  predicate NoUnknownNorCycle(n: Node)
  {
    && !n.Unknown?
    && (n.Dir? ==> !n.cycleDetected && forall c :: c in n.children ==> NoUnknownNorCycle(c))
  }

  /** Without following links, no probe is refused and no cycle is reported. */
  lemma {:induction false} MakeNodeLinksOpaque(o: Options, e: Entry, relpath: string, depth: nat,
                                               seen: set<Identity>)
    requires !o.followSymlinks
    ensures NoUnknownNorCycle(MakeNodeSpec(o, e, relpath, depth, seen).0)
    decreases e, 1
  {
    if StatIsDir(e, o.followSymlinks) && !DepthCut(o, depth) {
      ChildrenLinksOpaque(o, e, IterEntries(e), 0, relpath, depth, seen);
    }
  }

  lemma {:induction false} ChildrenLinksOpaque(o: Options, parent: Entry, order: seq<Entry>, i: nat,
                                               relpath: string, depth: nat, seen: set<Identity>)
    requires !o.followSymlinks
    requires parent.DirEntry? && i <= |order| && forall x :: x in order ==> x in parent.entries
    ensures forall c :: c in ChildrenSpec(o, parent, order, i, relpath, depth, seen).0 ==> NoUnknownNorCycle(c)
    decreases parent, 0, |order| - i
  {
    if i < |order| {
      var e := order[i];
      if ShouldSkip(o, e.name) {
        ChildrenLinksOpaque(o, parent, order, i + 1, relpath, depth, seen);
      } else {
        assert e in parent.entries;
        if IsDir(e, o.followSymlinks) {
          MakeNodeLinksOpaque(o, e, JoinRel(relpath, e.name), depth + 1, seen);
        }
        ChildrenLinksOpaque(o, parent, order, i + 1, relpath, depth, seen);
      }
    }
  }

  /** Without following links the seen set is never consulted: whatever it
      holds, the same tree is built. */
  lemma {:induction false} MakeNodeSeenIrrelevant(o: Options, e: Entry, relpath: string, depth: nat,
                                                  s1: set<Identity>, s2: set<Identity>)
    requires !o.followSymlinks
    ensures MakeNodeSpec(o, e, relpath, depth, s1).0 == MakeNodeSpec(o, e, relpath, depth, s2).0
    decreases e, 1
  {
    if StatIsDir(e, o.followSymlinks) && !DepthCut(o, depth) {
      ChildrenSeenIrrelevant(o, e, IterEntries(e), 0, relpath, depth, s1, s2);
    }
  }

  lemma {:induction false} ChildrenSeenIrrelevant(o: Options, parent: Entry, order: seq<Entry>, i: nat,
                                                  relpath: string, depth: nat, s1: set<Identity>, s2: set<Identity>)
    requires !o.followSymlinks
    requires parent.DirEntry? && i <= |order| && forall x :: x in order ==> x in parent.entries
    ensures ChildrenSpec(o, parent, order, i, relpath, depth, s1).0
         == ChildrenSpec(o, parent, order, i, relpath, depth, s2).0
    decreases parent, 0, |order| - i
  {
    if i < |order| {
      var e := order[i];
      if ShouldSkip(o, e.name) {
        ChildrenSeenIrrelevant(o, parent, order, i + 1, relpath, depth, s1, s2);
      } else {
        assert e in parent.entries;
        if IsDir(e, o.followSymlinks) {
          MakeNodeSeenIrrelevant(o, e, JoinRel(relpath, e.name), depth + 1, s1, s2);
        }
        ChildrenSeenIrrelevant(o, parent, order, i + 1, relpath, depth, s1, s2);
      }
    }
  }

  // ---------------------------------------------------------------------
  // Relative paths (md_tree.py:79, 96, 136)
  // ---------------------------------------------------------------------

  /** The relpath a child named `name` of the directory at `relpath` records. */
  function ChildRelpath(c: Node, relpath: string): string
  {
    if c.Dir? then DirRelpath(JoinRel(relpath, c.name)) else JoinRel(relpath, c.name)
  }

  predicate RelpathsJoined(n: Node, relpath: string)
  {
    n.Dir? ==> forall c :: c in n.children ==>
      c.relpath == ChildRelpath(c, relpath) && RelpathsJoined(c, JoinRel(relpath, c.name))
  }

  lemma {:induction false} MakeNodeRelpaths(o: Options, e: Entry, relpath: string, depth: nat,
                                            seen: set<Identity>)
    ensures RelpathsJoined(MakeNodeSpec(o, e, relpath, depth, seen).0, relpath)
    decreases e, 1
  {
    if StatIsDir(e, o.followSymlinks) && !DepthCut(o, depth) && !(o.followSymlinks && IdentityOf(e) in seen) {
      var seen1 := if o.followSymlinks then seen + {IdentityOf(e)} else seen;
      ChildrenRelpaths(o, e, IterEntries(e), 0, relpath, depth, seen1);
    }
  }

  lemma {:induction false} ChildrenRelpaths(o: Options, parent: Entry, order: seq<Entry>, i: nat,
                                            relpath: string, depth: nat, seen: set<Identity>)
    requires parent.DirEntry? && i <= |order| && forall x :: x in order ==> x in parent.entries
    ensures forall c :: c in ChildrenSpec(o, parent, order, i, relpath, depth, seen).0 ==>
      c.relpath == ChildRelpath(c, relpath) && RelpathsJoined(c, JoinRel(relpath, c.name))
    decreases parent, 0, |order| - i
  {
    if i < |order| {
      if ShouldSkip(o, order[i].name) {
        ChildrenRelpaths(o, parent, order, i + 1, relpath, depth, seen);
      } else {
        var e := order[i];
        var child := ChildSpec(o, e, JoinRel(relpath, e.name), depth, seen);
        assert e in parent.entries;
        if IsDir(e, o.followSymlinks) {
          MakeNodeRelpaths(o, e, JoinRel(relpath, e.name), depth + 1, seen);
        }
        ChildrenRelpaths(o, parent, order, i + 1, relpath, depth, child.1);
      }
    }
  }

  // ---------------------------------------------------------------------
  // Unique relative paths: no two nodes of a tree share a relpath, as long
  // as sibling names differ and contain no '/' (md_tree.py:79, 96, 136)
  // ---------------------------------------------------------------------

  predicate Distinct<T(==)>(xs: seq<T>)
  {
    forall i, j :: 0 <= i < j < |xs| ==> xs[i] != xs[j]
  }

  lemma DistinctConcat<T>(xs: seq<T>, ys: seq<T>)
    requires Distinct(xs) && Distinct(ys) && forall x :: x in xs ==> x !in ys
    ensures Distinct(xs + ys)
  {
    forall i, j | 0 <= i < j < |xs + ys| ensures (xs + ys)[i] != (xs + ys)[j] {
      if i < |xs| && j >= |xs| {
        assert (xs + ys)[i] in xs && (xs + ys)[j] == ys[j - |xs|];
      }
    }
  }

  /** A name `scandir` can return: not empty, not "." or "..", no '/'. */
  predicate ValidName(name: string)
  {
    name != "" && name != "." && name != ".." && forall k :: 0 <= k < |name| ==> name[k] != '/'
  }

  /** Every directory below `e` lists entries with valid, distinct names. */
  predicate WellNamed(e: Entry)
  {
    e.DirEntry? ==> DistinctNames(e.entries) && forall x :: x in e.entries ==> ValidName(x.name) && WellNamed(x)
  }

  /** The relpaths of a node and of everything below it, in preorder. */
  function AllRelpaths(n: Node): seq<string>
  {
    [n.relpath] + if n.Dir? then RelpathsOf(n.children) else []
  }

  function RelpathsOf(ns: seq<Node>): seq<string>
  {
    if ns == [] then [] else AllRelpaths(ns[0]) + RelpathsOf(ns[1..])
  }

  /** What a child's relpath starts with: `relpath + "/"`, or nothing at the root. */
  function Prefix(relpath: string): string
  {
    if relpath == "" then "" else relpath + "/"
  }

  /** `s` is `r` or a path below `r`. */
  predicate Under(s: string, r: string)
  {
    s == r || (|s| > |r| && s[..|r|] == r && s[|r|] == '/')
  }

  /** `s` is a path below the directory at `relpath`. */
  predicate Below(s: string, relpath: string)
  {
    |s| > |Prefix(relpath)| && s[..|Prefix(relpath)|] == Prefix(relpath)
  }

  /** The first component of a path. */
  function FirstSegment(t: string): string
  {
    if t == [] || t[0] == '/' then [] else [t[0]] + FirstSegment(t[1..])
  }

  /** The names of `order[i..]`. */
  function NamesFrom(order: seq<Entry>, i: nat): set<string>
  {
    set j | i <= j < |order| :: order[j].name
  }

  lemma {:induction false} FirstSegmentUnder(t: string, x: string)
    requires (forall k :: 0 <= k < |x| ==> x[k] != '/') && Under(t, x)
    ensures FirstSegment(t) == x
  {
    if x != [] {
      assert t[0] == x[0];
      assert Under(t[1..], x[1..]) by {
        if t != x {
          assert t[1..][..|x| - 1] == t[..|x|][1..];
        }
      }
      FirstSegmentUnder(t[1..], x[1..]);
      assert x == [x[0]] + x[1..];
    }
  }

  /** A path under the child `x` of the directory at `relpath` is below
      that directory, and its component after the directory is `x`. */
  lemma UnderChild(s: string, relpath: string, x: string)
    requires ValidName(x) && Under(s, JoinRel(relpath, x))
    ensures Below(s, relpath) && FirstSegment(s[|Prefix(relpath)|..]) == x
  {
    var p := Prefix(relpath);
    assert JoinRel(relpath, x) == p + x;
    assert s[..|p|] == (p + x)[..|p|] by {
      if s != p + x {
        assert s[..|p|] == s[..|p + x|][..|p|];
      }
    }
    var t := s[|p|..];
    assert Under(t, x) by {
      if s != p + x {
        assert t[..|x|] == s[..|p + x|][|p|..];
        assert t[|x|] == s[|p + x|];
      }
    }
    FirstSegmentUnder(t, x);
  }

  lemma RelpathsOfCons(c: Node, rest: seq<Node>)
    ensures RelpathsOf([c] + rest) == AllRelpaths(c) + RelpathsOf(rest)
  {
    assert ([c] + rest)[1..] == rest;
  }

  /** A directory's own relpath followed by distinct paths below it. */
  lemma NestedRelpaths(relpath: string, ps: seq<string>)
    requires relpath != "" && Distinct(ps) && forall s :: s in ps ==> Below(s, relpath)
    ensures Distinct([relpath] + ps) && forall s :: s in [relpath] + ps ==> Under(s, relpath)
  {
    forall s | s in ps ensures Under(s, relpath) && s != relpath {
      assert s[..|relpath| + 1] == relpath + "/";
      assert s[..|relpath|] == s[..|relpath| + 1][..|relpath|];
    }
    DistinctConcat([relpath], ps);
  }

  /** Below a directory made at a non-empty relpath, every relpath is that
      relpath or a path under it, and no two are equal. */
  lemma {:induction false} MakeNodeRelpathsUnique(o: Options, e: Entry, relpath: string, depth: nat,
                                                  seen: set<Identity>)
    requires relpath != "" && WellNamed(e)
    ensures var ps := AllRelpaths(MakeNodeSpec(o, e, relpath, depth, seen).0);
      Distinct(ps) && forall s :: s in ps ==> Under(s, relpath)
    decreases e, 1
  {
    var n := MakeNodeSpec(o, e, relpath, depth, seen).0;
    if StatIsDir(e, o.followSymlinks) && !DepthCut(o, depth) && !(o.followSymlinks && IdentityOf(e) in seen) {
      var seen1 := if o.followSymlinks then seen + {IdentityOf(e)} else seen;
      var kids := ChildrenSpec(o, e, IterEntries(e), 0, relpath, depth, seen1).0;
      IterEntriesDistinct(e);
      ChildrenRelpathsUnique(o, e, IterEntries(e), 0, relpath, depth, seen1);
      assert n.relpath == relpath && n.children == kids;
      NestedRelpaths(relpath, RelpathsOf(kids));
    } else if n.Dir? {
      assert AllRelpaths(n) == [relpath];
    } else {
      assert AllRelpaths(n) == [relpath];
    }
  }

  /** The child of a directory made from `e` at `rel`: its relpaths are
      distinct and all under `rel`. */
  lemma {:induction false} ChildRelpathsUnique(o: Options, e: Entry, rel: string, depth: nat,
                                               seen: set<Identity>)
    requires rel != "" && WellNamed(e)
    ensures var ps := AllRelpaths(ChildSpec(o, e, rel, depth, seen).0);
      Distinct(ps) && forall s :: s in ps ==> Under(s, rel)
    decreases e, 2
  {
    var c := ChildSpec(o, e, rel, depth, seen).0;
    if o.followSymlinks && e.DeniedLink? {
      assert AllRelpaths(c) == [rel];
    } else if IsDir(e, o.followSymlinks) {
      MakeNodeRelpathsUnique(o, e, rel, depth + 1, seen);
    } else {
      assert AllRelpaths(c) == [rel];
    }
  }

  /** The relpaths under the child made from `order[i]`, followed by
      those made from the entries after it, are distinct and each starts
      with the name of one of `order[i..]`. */
  lemma SiblingRelpaths(relpath: string, order: seq<Entry>, i: nat, cs: seq<string>, rs: seq<string>)
    requires i < |order| && DistinctNames(order) && ValidName(order[i].name)
    requires Distinct(cs) && forall s :: s in cs ==> Under(s, JoinRel(relpath, order[i].name))
    requires Distinct(rs)
    requires forall s :: s in rs ==> Below(s, relpath) && FirstSegment(s[|Prefix(relpath)|..]) in NamesFrom(order, i + 1)
    ensures Distinct(cs + rs)
    ensures forall s :: s in cs + rs ==> Below(s, relpath) && FirstSegment(s[|Prefix(relpath)|..]) in NamesFrom(order, i)
  {
    var name := order[i].name;
    forall s | s in cs ensures Below(s, relpath) && FirstSegment(s[|Prefix(relpath)|..]) == name {
      UnderChild(s, relpath, name);
    }
    assert name !in NamesFrom(order, i + 1);
    assert name in NamesFrom(order, i);
    assert NamesFrom(order, i + 1) <= NamesFrom(order, i);
    DistinctConcat(cs, rs);
  }

  lemma {:induction false} ChildrenRelpathsUnique(o: Options, parent: Entry, order: seq<Entry>, i: nat,
                                                  relpath: string, depth: nat, seen: set<Identity>)
    requires parent.DirEntry? && i <= |order| && forall x :: x in order ==> x in parent.entries
    requires WellNamed(parent) && DistinctNames(order)
    ensures var ps := RelpathsOf(ChildrenSpec(o, parent, order, i, relpath, depth, seen).0);
      && Distinct(ps)
      && forall s :: s in ps ==> Below(s, relpath) && FirstSegment(s[|Prefix(relpath)|..]) in NamesFrom(order, i)
    decreases parent, 0, |order| - i
  {
    if i < |order| {
      var e := order[i];
      assert e in parent.entries;
      if ShouldSkip(o, e.name) {
        ChildrenRelpathsUnique(o, parent, order, i + 1, relpath, depth, seen);
        assert NamesFrom(order, i + 1) <= NamesFrom(order, i);
      } else {
        KeptChildRelpathsUnique(o, parent, order, i, relpath, depth, seen);
      }
    }
  }

  /** The step of ChildrenRelpathsUnique for an entry that is not skipped. */
  lemma {:induction false} KeptChildRelpathsUnique(o: Options, parent: Entry, order: seq<Entry>, i: nat,
                                                   relpath: string, depth: nat, seen: set<Identity>)
    requires parent.DirEntry? && i < |order| && forall x :: x in order ==> x in parent.entries
    requires WellNamed(parent) && DistinctNames(order) && !ShouldSkip(o, order[i].name)
    ensures var ps := RelpathsOf(ChildrenSpec(o, parent, order, i, relpath, depth, seen).0);
      && Distinct(ps)
      && forall s :: s in ps ==> Below(s, relpath) && FirstSegment(s[|Prefix(relpath)|..]) in NamesFrom(order, i)
    decreases parent, 0, |order| - i, 0
  {
    var e := order[i];
    assert e in parent.entries;
    var rel := JoinRel(relpath, e.name);
    var child := ChildSpec(o, e, rel, depth, seen);
    var rest := ChildrenSpec(o, parent, order, i + 1, relpath, depth, child.1).0;
    ChildRelpathsUnique(o, e, rel, depth, seen);
    ChildrenRelpathsUnique(o, parent, order, i + 1, relpath, depth, child.1);
    SiblingRelpaths(relpath, order, i, AllRelpaths(child.0), RelpathsOf(rest));
    RelpathsOfCons(child.0, rest);
    assert ChildrenSpec(o, parent, order, i, relpath, depth, seen).0 == [child.0] + rest;
  }

  /** The root's relpath "." followed by distinct paths that each start
      with a valid name. */
  lemma RootRelpaths(ps: seq<string>, order: seq<Entry>)
    requires Distinct(ps) && forall x :: x in order ==> ValidName(x.name)
    requires forall s :: s in ps ==> Below(s, "") && FirstSegment(s[|Prefix("")|..]) in NamesFrom(order, 0)
    ensures Distinct(["."] + ps)
  {
    assert FirstSegment(".") == ".";
    DistinctConcat(["."], ps);
  }

  /** No two nodes of the tree share a relpath, when every directory lists
      valid, distinct names. */
  lemma RelpathsUnique(o: Options, root: Entry)
    requires WellNamed(root)
    ensures Distinct(AllRelpaths(BuildTree(o, root)))
  {
    var n := BuildTree(o, root);
    var empty: set<Identity> := {};
    if StatIsDir(root, o.followSymlinks) && !DepthCut(o, 0) {
      var seen1 := if o.followSymlinks then {IdentityOf(root)} else empty;
      assert empty + {IdentityOf(root)} == {IdentityOf(root)};
      var kids := ChildrenSpec(o, root, IterEntries(root), 0, "", 0, seen1).0;
      IterEntriesDistinct(root);
      ChildrenRelpathsUnique(o, root, IterEntries(root), 0, "", 0, seen1);
      assert n == Dir(root.name, ".", kids, false);
      forall x | x in IterEntries(root) ensures ValidName(x.name) {
        assert x in root.entries;
      }
      RootRelpaths(RelpathsOf(kids), IterEntries(root));
    } else {
      assert AllRelpaths(n) == [n.relpath];
    }
  }

  // ---------------------------------------------------------------------
  // Cycle detection over the whole walk: following links, no directory
  // identity is expanded twice (md_tree.py:55, 86-91)
  // ---------------------------------------------------------------------

  /** The identities of the directories `make_node` expands, in the order
      it expands them. */
  function Expansions(o: Options, e: Entry, relpath: string, depth: nat, seen: set<Identity>): seq<Identity>
    decreases e, 1
  {
    if StatIsDir(e, o.followSymlinks) && !DepthCut(o, depth) && !(o.followSymlinks && IdentityOf(e) in seen) then
      var seen1 := if o.followSymlinks then seen + {IdentityOf(e)} else seen;
      [IdentityOf(e)] + ChildrenExpansions(o, e, IterEntries(e), 0, relpath, depth, seen1)
    else []
  }

  function ChildrenExpansions(o: Options, parent: Entry, order: seq<Entry>, i: nat, relpath: string,
                              depth: nat, seen: set<Identity>): seq<Identity>
    requires parent.DirEntry? && i <= |order| && forall x :: x in order ==> x in parent.entries
    decreases parent, 0, |order| - i
  {
    if i == |order| then []
    else if ShouldSkip(o, order[i].name) then ChildrenExpansions(o, parent, order, i + 1, relpath, depth, seen)
    else
      var e := order[i];
      assert e in parent.entries;
      var rel := JoinRel(relpath, e.name);
      var mine := if IsDir(e, o.followSymlinks) then Expansions(o, e, rel, depth + 1, seen) else [];
      mine + ChildrenExpansions(o, parent, order, i + 1, relpath, depth, ChildSpec(o, e, rel, depth, seen).1)
  }

  function SetOf(ids: seq<Identity>): set<Identity>
  {
    set x | x in ids
  }

  /** Two runs of expansions, the second starting from the set the first
      left behind, form one run of new, distinct identities. */
  lemma ExpansionsJoin(seen: set<Identity>, first: seq<Identity>, second: seq<Identity>)
    requires Distinct(first) && forall x :: x in first ==> x !in seen
    requires Distinct(second) && forall x :: x in second ==> x !in seen + SetOf(first)
    ensures Distinct(first + second) && (forall x :: x in first + second ==> x !in seen)
    ensures seen + SetOf(first) + SetOf(second) == seen + SetOf(first + second)
  {
    DistinctConcat(first, second);
    assert SetOf(first + second) == SetOf(first) + SetOf(second);
  }

  /** Following links, the directories expanded below `e` have distinct
      identities, none of them seen before, and `seen_inodes` ends up
      holding exactly the old set and those identities. */
  lemma {:induction false} MakeNodeExpandsOnce(o: Options, e: Entry, relpath: string, depth: nat,
                                               seen: set<Identity>)
    requires o.followSymlinks
    ensures var t := Expansions(o, e, relpath, depth, seen);
      && Distinct(t) && (forall x :: x in t ==> x !in seen)
      && MakeNodeSpec(o, e, relpath, depth, seen).1 == seen + SetOf(t)
    decreases e, 1
  {
    if StatIsDir(e, o.followSymlinks) && !DepthCut(o, depth) && IdentityOf(e) !in seen {
      var id := IdentityOf(e);
      var tc := ChildrenExpansions(o, e, IterEntries(e), 0, relpath, depth, seen + {id});
      ChildrenExpandOnce(o, e, IterEntries(e), 0, relpath, depth, seen + {id});
      assert SetOf([id]) == {id};
      ExpansionsJoin(seen, [id], tc);
    } else {
      assert SetOf([]) == {};
    }
  }

  lemma {:induction false} ChildrenExpandOnce(o: Options, parent: Entry, order: seq<Entry>, i: nat,
                                              relpath: string, depth: nat, seen: set<Identity>)
    requires o.followSymlinks
    requires parent.DirEntry? && i <= |order| && forall x :: x in order ==> x in parent.entries
    ensures var t := ChildrenExpansions(o, parent, order, i, relpath, depth, seen);
      && Distinct(t) && (forall x :: x in t ==> x !in seen)
      && ChildrenSpec(o, parent, order, i, relpath, depth, seen).1 == seen + SetOf(t)
    decreases parent, 0, |order| - i
  {
    if i == |order| {
      assert SetOf([]) == {};
    } else if ShouldSkip(o, order[i].name) {
      ChildrenExpandOnce(o, parent, order, i + 1, relpath, depth, seen);
    } else {
      var e := order[i];
      assert e in parent.entries;
      var rel := JoinRel(relpath, e.name);
      var seen1 := ChildSpec(o, e, rel, depth, seen).1;
      var mine := if IsDir(e, o.followSymlinks) then Expansions(o, e, rel, depth + 1, seen) else [];
      var rest := ChildrenExpansions(o, parent, order, i + 1, relpath, depth, seen1);
      if IsDir(e, o.followSymlinks) {
        MakeNodeExpandsOnce(o, e, rel, depth + 1, seen);
      } else {
        assert SetOf(mine) == {};
      }
      assert seen1 == seen + SetOf(mine);
      ChildrenExpandOnce(o, parent, order, i + 1, relpath, depth, seen1);
      ExpansionsJoin(seen, mine, rest);
    }
  }

  // ---------------------------------------------------------------------
  // One directory level: which entries become which children
  // ---------------------------------------------------------------------

  /** The entries of `order[i..]` that `should_skip` lets through. */
  function Kept(o: Options, order: seq<Entry>, i: nat): seq<Entry>
    requires i <= |order|
    decreases |order| - i
  {
    if i == |order| then []
    else if ShouldSkip(o, order[i].name) then Kept(o, order, i + 1)
    else [order[i]] + Kept(o, order, i + 1)
  }

  /** The child `c` is what the loop makes of the entry `e`: a refused
      probe an `unknown` node, a directory a `dir` node, anything else a
      `file` node with the entry's link flag, extension and size. */
  predicate ChildOf(o: Options, c: Node, e: Entry)
  {
    && c.name == e.name
    && (c.Dir? <==> StatIsDir(e, o.followSymlinks))
    && (c.Unknown? <==> o.followSymlinks && e.DeniedLink?)
    && (c.Unknown? ==> c.error == PermissionDenied)
    && (c.File? ==> c.isLink == IsLink(e) && c.ext == Ext(e.name) && c.size == SizeFieldOf(o, e))
  }

  predicate ChildrenOf(o: Options, out: seq<Node>, kept: seq<Entry>)
  {
    |out| == |kept| && forall k :: 0 <= k < |out| ==> ChildOf(o, out[k], kept[k])
  }

  lemma ChildrenOfCons(o: Options, c: Node, e: Entry, out: seq<Node>, kept: seq<Entry>)
    requires ChildOf(o, c, e) && ChildrenOf(o, out, kept)
    ensures ChildrenOf(o, [c] + out, [e] + kept)
  {
  }

  /** Each kept entry, and no other, becomes one child, in order. */
  lemma {:induction false} ChildrenMatchEntries(o: Options, parent: Entry, order: seq<Entry>, i: nat,
                                                relpath: string, depth: nat, seen: set<Identity>)
    requires parent.DirEntry? && i <= |order| && forall x :: x in order ==> x in parent.entries
    ensures ChildrenOf(o, ChildrenSpec(o, parent, order, i, relpath, depth, seen).0, Kept(o, order, i))
    decreases |order| - i
  {
    if i < |order| {
      var e := order[i];
      if ShouldSkip(o, e.name) {
        ChildrenMatchEntries(o, parent, order, i + 1, relpath, depth, seen);
      } else {
        var child := ChildSpec(o, e, JoinRel(relpath, e.name), depth, seen);
        ChildrenMatchEntries(o, parent, order, i + 1, relpath, depth, child.1);
        var rest := ChildrenSpec(o, parent, order, i + 1, relpath, depth, child.1).0;
        assert ChildOf(o, child.0, e);
        ChildrenOfCons(o, child.0, e, rest, Kept(o, order, i + 1));
      }
    }
  }

  // ---------------------------------------------------------------------
  // Single-step facts of make_node
  // ---------------------------------------------------------------------

  /** A root that is not a directory yields one `file` node whose relpath is
      its own name (md_tree.py:131-147). */
  lemma RootFile(o: Options, root: Entry)
    requires !StatIsDir(root, o.followSymlinks)
    ensures BuildTree(o, root) == File(root.name, root.name, IsLink(root), Ext(root.name), SizeFieldOf(o, root))
  {
  }

  /** A directory below the cut-off is emitted with no children, and the
      depth test comes before the cycle test, so it is not added to the seen
      set (md_tree.py:82-91). */
  lemma DepthCutDirectory(o: Options, e: Entry, relpath: string, depth: nat, seen: set<Identity>)
    requires StatIsDir(e, o.followSymlinks) && DepthCut(o, depth)
    ensures MakeNodeSpec(o, e, relpath, depth, seen) == (Dir(e.name, DirRelpath(relpath), [], false), seen)
  {
  }

  /** Following links, a directory whose identity was seen already is
      reported as a cycle and not expanded; otherwise its identity is added
      before its entries are (md_tree.py:86-91). */
  lemma CycleDetection(o: Options, e: Entry, relpath: string, depth: nat, seen: set<Identity>)
    requires o.followSymlinks && StatIsDir(e, o.followSymlinks) && !DepthCut(o, depth)
    ensures var r := MakeNodeSpec(o, e, relpath, depth, seen);
      && (IdentityOf(e) in seen ==> r == (Dir(e.name, DirRelpath(relpath), [], true), seen))
      && (IdentityOf(e) !in seen ==> !r.0.cycleDetected && IdentityOf(e) in r.1)
  {
  }

  /** An expanded directory's children are its kept sorted entries; an
      unreadable directory has none (md_tree.py:36-42, 93). */
  lemma ExpandedDirectory(o: Options, e: Entry, relpath: string, depth: nat, seen: set<Identity>)
    requires StatIsDir(e, o.followSymlinks) && !DepthCut(o, depth)
    requires !(o.followSymlinks && IdentityOf(e) in seen)
    ensures var r := MakeNodeSpec(o, e, relpath, depth, seen).0;
      && |r.children| == |Kept(o, IterEntries(e), 0)|
      && (forall k :: 0 <= k < |r.children| ==> r.children[k].name == Kept(o, IterEntries(e), 0)[k].name)
      && (!e.readable ==> r.children == [])
  {
    var seen1 := if o.followSymlinks then seen + {IdentityOf(e)} else seen;
    ChildrenMatchEntries(o, e, IterEntries(e), 0, relpath, depth, seen1);
  }

  // A root holding the file "a.txt" and the directory "b", which `scandir`
  // lists but which cannot be stat'ed, with the default options.
  const ExampleFile: Entry := FileEntry("a.txt", false, None)
  const ExampleDir: Entry := DirEntry("b", false, None, None, true, [])
  const ExampleRoot: Entry := DirEntry("root", false, Some(Identity(1, 1)), None, true, [ExampleFile, ExampleDir])
  const ExampleOptions: Options := Options(0, false, false, DefaultExcludes, false)

  lemma ExampleListing()
    ensures IterEntries(ExampleRoot) == [ExampleDir, ExampleFile]
  {
    assert FileSystem.Listing(ExampleRoot) == [ExampleFile, ExampleDir];
    assert KeyLe(KeyOf(ExampleDir), KeyOf(ExampleFile));
  }

  lemma ExampleChildren()
    ensures ChildrenSpec(ExampleOptions, ExampleRoot, [ExampleDir, ExampleFile], 0, "", 0, {}).0
         == [File("b", "b", false, "", NotShown), File("a.txt", "a.txt", false, ".txt", NotShown)]
  {
    var o, order := ExampleOptions, [ExampleDir, ExampleFile];
    assert !ShouldSkip(o, "b") && !ShouldSkip(o, "a.txt");
    assert JoinRel("", "b") == "b" && JoinRel("", "a.txt") == "a.txt";
    assert RFind("b", '.', 0, 1) == -1;
    assert RFind("a.txt", '.', 0, 5) == 1 && !AllDots("a.txt"[..1]);
    assert Ext("b") == "" && Ext("a.txt") == ".txt";
    assert order[0] == ExampleDir && order[1] == ExampleFile;
    assert FileNode(o, ExampleFile, "a.txt") == File("a.txt", "a.txt", false, ".txt", NotShown);
    assert ChildSpec(o, ExampleFile, "a.txt", 0, {}) == (File("a.txt", "a.txt", false, ".txt", NotShown), {});
    assert ChildSpec(o, ExampleDir, "b", 0, {}) == (File("b", "b", false, "", NotShown), {});
    var last := ChildrenSpec(o, ExampleRoot, order, 1, "", 0, {});
    assert last.0 == [File("a.txt", "a.txt", false, ".txt", NotShown)] + ChildrenSpec(o, ExampleRoot, order, 2, "", 0, {}).0;
  }

  /** A directory that `scandir` lists but that cannot be stat'ed sorts
      among the directories, yet `make_node` turns it into a `file` node, so
      the children are not in "directories first" order: here the file "b"
      precedes the file "a.txt". */
  lemma UnstattableDirectoryListedAsFile()
    ensures var tree := BuildTree(ExampleOptions, ExampleRoot);
      && tree == Dir("root", ".", [File("b", "b", false, "", NotShown),
                                   File("a.txt", "a.txt", false, ".txt", NotShown)], false)
      && !SortedNodes(tree.children)
  {
    ExampleListing();
    ExampleChildren();
    var o, root := ExampleOptions, ExampleRoot;
    assert StatIsDir(root, o.followSymlinks) && !DepthCut(o, 0);
    var tree := BuildTree(o, root);
    assert tree == Dir("root", ".", ChildrenSpec(o, root, IterEntries(root), 0, "", 0, {}).0, false);
    assert Lower("b") == "b" && Lower("a.txt") == "a.txt";
    assert !LexLe("b", "a.txt");
    assert !KeyLe(NodeKey(tree.children[0]), NodeKey(tree.children[1]));
  }
}
