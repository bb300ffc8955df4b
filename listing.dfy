/** The order of `iter_entries` (md_tree.py:35-42): the entries of a
    directory sorted by the key (not a directory, lower-cased name), where
    "directory" is asked without following links. Python's sort is stable;
    the insertion sort below is too, though only sortedness and permutation
    are stated. */
module Listing {
  import opened Strings
  import opened FileSystem

  /** The sort key `(not e.is_dir(follow_symlinks=False), e.name.lower())`;
      tuples compare field by field and False sorts before True. */
  datatype SortKey = SortKey(notDir: bool, lower: string)

  function KeyOf(e: Entry): SortKey
  {
    SortKey(!IsDir(e, false), Lower(e.name))
  }

  predicate KeyLe(a: SortKey, b: SortKey)
  {
    (!a.notDir && b.notDir) || (a.notDir == b.notDir && LexLe(a.lower, b.lower))
  }

  lemma KeyLeTotal(a: SortKey, b: SortKey)
    ensures KeyLe(a, b) || KeyLe(b, a)
  {
    LexLeTotal(a.lower, b.lower);
  }

  lemma KeyLeTransitive(a: SortKey, b: SortKey, c: SortKey)
    requires KeyLe(a, b) && KeyLe(b, c)
    ensures KeyLe(a, c)
  {
    if a.notDir == b.notDir == c.notDir {
      LexLeTransitive(a.lower, b.lower, c.lower);
    }
  }

  predicate Sorted(es: seq<Entry>)
  {
    forall i, j :: 0 <= i < j < |es| ==> KeyLe(KeyOf(es[i]), KeyOf(es[j]))
  }

  /** `x` placed before the first entry it does not sort after. */
  function Insert(x: Entry, es: seq<Entry>): seq<Entry>
  {
    if es == [] || KeyLe(KeyOf(x), KeyOf(es[0])) then [x] + es
    else [es[0]] + Insert(x, es[1..])
  }

  lemma {:induction false} InsertPermutes(x: Entry, es: seq<Entry>)
    ensures multiset(Insert(x, es)) == multiset(es) + multiset{x}
  {
    if es != [] && !KeyLe(KeyOf(x), KeyOf(es[0])) {
      InsertPermutes(x, es[1..]);
      assert es == [es[0]] + es[1..];
    }
  }

  lemma {:induction false} InsertSorted(x: Entry, es: seq<Entry>)
    requires Sorted(es)
    ensures Sorted(Insert(x, es)) && multiset(Insert(x, es)) == multiset(es) + multiset{x}
  {
    InsertPermutes(x, es);
    if es == [] {
    } else if KeyLe(KeyOf(x), KeyOf(es[0])) {
      forall j | 0 <= j < |es| ensures KeyLe(KeyOf(x), KeyOf(es[j])) {
        if j > 0 {
          KeyLeTransitive(KeyOf(x), KeyOf(es[0]), KeyOf(es[j]));
        }
      }
      PrependSorted(x, es);
    } else {
      var tail := Insert(x, es[1..]);
      InsertSorted(x, es[1..]);
      KeyLeTotal(KeyOf(x), KeyOf(es[0]));
      forall j | 0 <= j < |tail| ensures KeyLe(KeyOf(es[0]), KeyOf(tail[j])) {
        HeadBelowInserted(x, es, tail, j);
      }
      PrependSorted(es[0], tail);
    }
  }

  /** An entry that sorts at or before every entry of a sorted listing
      keeps it sorted when put in front. */
  lemma PrependSorted(h: Entry, es: seq<Entry>)
    requires Sorted(es) && forall j :: 0 <= j < |es| ==> KeyLe(KeyOf(h), KeyOf(es[j]))
    ensures Sorted([h] + es)
  {
  }

  lemma HeadBelowInserted(x: Entry, es: seq<Entry>, tail: seq<Entry>, j: nat)
    requires Sorted(es) && es != [] && KeyLe(KeyOf(es[0]), KeyOf(x))
    requires multiset(tail) == multiset(es[1..]) + multiset{x}
    requires j < |tail|
    ensures KeyLe(KeyOf(es[0]), KeyOf(tail[j]))
  {
    assert tail[j] in multiset(tail);
    if tail[j] != x {
      assert tail[j] in es[1..];
      var k :| 0 <= k < |es[1..]| && es[1..][k] == tail[j];
      assert es[k + 1] == tail[j];
    }
  }

  /** `list.sort(key=...)` on the entries of a directory. */
  function SortEntries(es: seq<Entry>): (r: seq<Entry>)
    ensures Sorted(r) && multiset(r) == multiset(es)
  {
    if es == [] then []
    else
      var tail := SortEntries(es[1..]);
      InsertSorted(es[0], tail);
      assert es == [es[0]] + es[1..];
      Insert(es[0], tail)
  }

  /** `iter_entries(path)`: the listing of a directory in sort order. */
  function IterEntries(e: Entry): (r: seq<Entry>)
    requires e.DirEntry?
    ensures Sorted(r) && multiset(r) == multiset(Listing(e))
    ensures forall x :: x in r ==> x in e.entries
  {
    var r := SortEntries(Listing(e));
    assert forall x :: x in r ==> x in e.entries by {
      forall x | x in r ensures x in e.entries {
        assert x in multiset(r);
        assert x in multiset(Listing(e));
      }
    }
    r
  }

  /** No two entries of a listing share a name, as in any one directory. */
  predicate DistinctNames(es: seq<Entry>)
  {
    forall i, j :: 0 <= i < j < |es| ==> es[i].name != es[j].name
  }

  /** Every entry of `es` other than `x` itself comes from `rest`. */
  lemma InsertedFrom(x: Entry, rest: seq<Entry>, es: seq<Entry>, y: Entry)
    requires multiset(es) == multiset(rest) + multiset{x} && y in es && y != x
    ensures y in rest
  {
    assert y in multiset(es);
  }

  lemma {:induction false} InsertDistinct(x: Entry, es: seq<Entry>)
    requires DistinctNames(es) && forall y :: y in es ==> y.name != x.name
    ensures DistinctNames(Insert(x, es))
  {
    if es != [] && !KeyLe(KeyOf(x), KeyOf(es[0])) {
      var tail := Insert(x, es[1..]);
      InsertDistinct(x, es[1..]);
      InsertPermutes(x, es[1..]);
      forall y | y in tail ensures y.name != es[0].name {
        if y != x {
          InsertedFrom(x, es[1..], tail, y);
          var k :| 0 <= k < |es[1..]| && es[1..][k] == y;
          assert es[k + 1] == y;
        }
      }
      PrependDistinct(es[0], tail);
    } else {
      PrependDistinct(x, es);
    }
  }

  lemma PrependDistinct(h: Entry, es: seq<Entry>)
    requires DistinctNames(es) && forall y :: y in es ==> y.name != h.name
    ensures DistinctNames([h] + es)
  {
    forall i, j | 0 <= i < j < |[h] + es| ensures ([h] + es)[i].name != ([h] + es)[j].name {
      assert ([h] + es)[j] == es[j - 1];
      if i > 0 {
        assert ([h] + es)[i] == es[i - 1];
      }
    }
  }

  /** Sorting a listing keeps its names distinct. */
  lemma {:induction false} SortDistinct(es: seq<Entry>)
    requires DistinctNames(es)
    ensures DistinctNames(SortEntries(es))
  {
    if es != [] {
      var tail := SortEntries(es[1..]);
      SortDistinct(es[1..]);
      forall y | y in tail ensures y.name != es[0].name {
        assert y in multiset(tail);
        assert y in es[1..];
        var k :| 0 <= k < |es[1..]| && es[1..][k] == y;
        assert es[k + 1] == y;
      }
      InsertDistinct(es[0], tail);
    }
  }

  /** The sorted listing of a directory whose entries have distinct names
      has distinct names. */
  lemma IterEntriesDistinct(e: Entry)
    requires e.DirEntry? && DistinctNames(e.entries)
    ensures DistinctNames(IterEntries(e))
  {
    SortDistinct(Listing(e));
  }
}
