/** The line-aware text chunker (`chunk_text`, md_tree.py:179-193): the
    serialized tree is cut into ordered pieces of at most `maxChars`
    characters, preferring to end a piece just after a newline when that
    newline lies beyond 60% of the budget.

    The source's floating-point test `nl > start + max_chars * 0.6` is the
    integer comparison `5 * (nl - start) > 3 * maxChars`; the two agree for
    every index and budget below 2^50 (at 2^51 they can differ). */
module Chunker {
  import opened Strings

  /** The exclusive end of the chunk that starts at `start`. */
  function Cut(text: string, maxChars: nat, start: nat): (end: nat)
    requires maxChars >= 1 && start < |text|
    ensures start < end <= |text| && end - start <= maxChars
    ensures end == |text| <==> start + maxChars >= |text|
    // when the text runs past the window, the cut is at the last newline of
    // the window if that newline lies beyond 60% of the budget, and at the
    // full window otherwise
    ensures start + maxChars < |text| ==>
      && (forall j :: end <= j < start + maxChars ==> text[j] != '\n')
      && ((text[end - 1] == '\n' && 5 * (end - 1 - start) > 3 * maxChars)
          || (end == start + maxChars &&
              forall j :: start <= j < end && 5 * (j - start) > 3 * maxChars ==> text[j] != '\n'))
  {
    var end := if start + maxChars < |text| then start + maxChars else |text|;
    if end < |text| then
      var nl := RFind(text, '\n', start, end);
      if 5 * (nl - start) > 3 * maxChars then nl + 1 else end
    else end
  }

  /** The chunks of `text[start..]`, cut one after another. */
  function ChunksFrom(text: string, maxChars: nat, start: nat): seq<string>
    requires maxChars >= 1 && start <= |text|
    decreases |text| - start
  {
    if start == |text| then []
    else
      var end := Cut(text, maxChars, start);
      [text[start..end]] + ChunksFrom(text, maxChars, end)
  }

  /** The inputs on which `chunk_text` returns: a positive budget, a text
      that fits, or the empty text, on which the loop never runs. On a
      non-empty text that does not fit a budget below 1, the loop never
      reaches the end of the text and never ends. */
  predicate Returns(text: string, maxChars: int)
  {
    maxChars >= 1 || |text| <= maxChars || text == []
  }

  /** What `chunk_text(text, max_chars)` returns. A text that fits is one
      chunk, whatever the budget. The empty text with a negative budget
      fails the length test and skips the loop, so it gives no chunk. */
  function Chunks(text: string, maxChars: int): seq<string>
    requires Returns(text, maxChars)
  {
    if |text| <= maxChars then [text]
    else if text == [] then []
    else ChunksFrom(text, maxChars, 0)
  }

  /** A non-final chunk `c`, followed in the text by `rest`, was cut as the
      rule demands: it is no longer than the budget, the window ran past it,
      no newline of the window lies after it, and it either ends with a
      newline beyond 60% of the budget or fills the window, which then holds
      no newline beyond 60% of the budget. */
  predicate CutRespected(c: string, rest: string, maxChars: nat)
  {
    && 0 < |c| <= maxChars < |c| + |rest|
    && (forall j :: 0 <= j < maxChars - |c| ==> rest[j] != '\n')
    && ((c[|c| - 1] == '\n' && 5 * (|c| - 1) > 3 * maxChars)
        || (|c| == maxChars && forall j :: 0 <= j < |c| && 5 * j > 3 * maxChars ==> c[j] != '\n'))
  }

  lemma {:induction false} ChunksFromConcat(text: string, maxChars: nat, start: nat)
    requires maxChars >= 1 && start <= |text|
    ensures Concat(ChunksFrom(text, maxChars, start)) == text[start..]
    decreases |text| - start
  {
    if start < |text| {
      var end := Cut(text, maxChars, start);
      ChunksFromConcat(text, maxChars, end);
      assert text[start..] == text[start..end] + text[end..];
    }
  }

  lemma {:induction false} ChunksFromShape(text: string, maxChars: nat, start: nat)
    requires maxChars >= 1 && start <= |text|
    ensures var cs := ChunksFrom(text, maxChars, start);
      && (cs == [] <==> start == |text|)
      && (forall i :: 0 <= i < |cs| ==> 0 < |cs[i]| <= maxChars)
      && (forall i :: 0 <= i < |cs| - 1 ==> CutRespected(cs[i], Concat(cs[i + 1..]), maxChars))
    decreases |text| - start
  {
    if start < |text| {
      var cs := ChunksFrom(text, maxChars, start);
      var end := Cut(text, maxChars, start);
      var rest := ChunksFrom(text, maxChars, end);
      ChunksFromShape(text, maxChars, end);
      assert cs == [text[start..end]] + rest;
      if rest != [] {
        ChunksFromConcat(text, maxChars, end);
        assert cs[1..] == rest;
        CutIsRespected(text, maxChars, start);
      }
      forall i | 1 <= i < |cs| - 1
        ensures CutRespected(cs[i], Concat(cs[i + 1..]), maxChars)
      {
        assert cs[i] == rest[i - 1] && cs[i + 1..] == rest[i..];
      }
    }
  }

  /** A chunk cut short of the end respects the cut rule against the text after it. */
  lemma CutIsRespected(text: string, maxChars: nat, start: nat)
    requires maxChars >= 1 && start < |text| && Cut(text, maxChars, start) < |text|
    ensures var end := Cut(text, maxChars, start);
      CutRespected(text[start..end], text[end..], maxChars)
  {
  }

  /** The properties `chunk_text` promises its caller. */
  lemma ChunksProperties(text: string, maxChars: int)
    requires Returns(text, maxChars)
    ensures var cs := Chunks(text, maxChars);
      && (cs == [] <==> text == [] && maxChars < 0)
      && Concat(cs) == text
      && (|text| <= maxChars ==> cs == [text])
      && (|text| > maxChars ==>
            && (forall i :: 0 <= i < |cs| ==> 0 < |cs[i]| <= maxChars)
            && (forall i :: 0 <= i < |cs| - 1 ==> CutRespected(cs[i], Concat(cs[i + 1..]), maxChars)))
  {
    if |text| > maxChars && text != [] {
      ChunksFromConcat(text, maxChars, 0);
      ChunksFromShape(text, maxChars, 0);
    } else if |text| <= maxChars {
      assert Concat([text]) == text + Concat([]);
    }
  }

  /** Every chunk but the last carries more than 60% of the budget, so a
      long text is not split into many slivers. */
  lemma NonFinalChunksAreLarge(text: string, maxChars: int, i: nat)
    requires Returns(text, maxChars)
    requires i + 1 < |Chunks(text, maxChars)|
    ensures 5 * |Chunks(text, maxChars)[i]| > 3 * maxChars
  {
    var cs := Chunks(text, maxChars);
    ChunksProperties(text, maxChars);
    assert CutRespected(cs[i], Concat(cs[i + 1..]), maxChars);
  }

  /** `chunk_text`: the loop that advances `start` and appends each chunk. */
  method ChunkText(text: string, maxChars: int) returns (chunks: seq<string>)
    requires Returns(text, maxChars)
    ensures chunks == Chunks(text, maxChars)
  {
    if |text| <= maxChars {
      return [text];
    }
    chunks := [];
    var start := 0;
    var n := |text|;
    while start < n
      invariant 0 <= start <= n
      invariant maxChars >= 1 ==> chunks + ChunksFrom(text, maxChars, start) == ChunksFrom(text, maxChars, 0)
      invariant maxChars < 1 ==> chunks == []
      decreases n - start
    {
      var end := if start + maxChars < n then start + maxChars else n;
      if end < n {
        var nl := RFind(text, '\n', start, end);
        if 5 * (nl - start) > 3 * maxChars {
          end := nl + 1;
        }
      }
      assert end == Cut(text, maxChars, start);
      assert ChunksFrom(text, maxChars, start) == [text[start..end]] + ChunksFrom(text, maxChars, end);
      chunks := chunks + [text[start..end]];
      start := end;
    }
  }
}
