/** The assembly of the model's replies in `call_openai_on_tree_json`
    (md_tree.py:214, 236-239): one reply per chunk, in chunk order, is
    appended to a list of outputs, followed, for every chunk but the last,
    by a separator naming the chunk; the list is joined with newlines,
    stripped of surrounding whitespace, and given one final newline. The
    replies themselves come from a network call and are a parameter here. */
module Responses {
  import opened Strings

  /** `f"\n---\n_Chunk {idx}/{n} end._\n"`. */
  function Separator(idx: nat, n: nat): string
  {
    "\n---\n_Chunk " + DecimalString(idx) + "/" + DecimalString(n) + " end._\n"
  }

  /** Two digit runs, each followed by a '/', that spell the same text
      are the same run. */
  lemma {:induction false} DigitsBeforeSlash(d1: string, d2: string, r1: string, r2: string)
    requires AllDigits(d1) && AllDigits(d2) && r1 != [] && r2 != [] && r1[0] == '/' && r2[0] == '/'
    requires d1 + r1 == d2 + r2
    ensures d1 == d2
  {
    if d1 != [] && d2 != [] {
      assert d1[0] == (d1 + r1)[0] == (d2 + r2)[0] == d2[0];
      assert d1[1..] + r1 == (d1 + r1)[1..] == (d2 + r2)[1..] == d2[1..] + r2;
      DigitsBeforeSlash(d1[1..], d2[1..], r1, r2);
      assert d1 == [d1[0]] + d1[1..] && d2 == [d2[0]] + d2[1..];
    } else {
      assert (d1 + r1)[0] == (d2 + r2)[0];
    }
  }

  /** Separators of different chunks differ: the chunk number is the digit
      run between the common prefix and the first '/'. */
  lemma SeparatorsDistinct(i: nat, j: nat, n: nat)
    requires Separator(i, n) == Separator(j, n)
    ensures i == j
  {
    var p := "\n---\n_Chunk ";
    var rest := "/" + DecimalString(n) + " end._\n";
    var di, dj := DecimalString(i), DecimalString(j);
    assert Separator(i, n) == p + (di + rest) && Separator(j, n) == p + (dj + rest);
    assert di + rest == Separator(i, n)[|p|..] == dj + rest;
    DigitsBeforeSlash(di, dj, rest, rest);
    DecimalInjective(i, j);
  }

  /** `"\n".join(parts)`. */
  function JoinLines(parts: seq<string>): string
  {
    if |parts| == 0 then ""
    else if |parts| == 1 then parts[0]
    else parts[0] + "\n" + JoinLines(parts[1..])
  }

  /** `str.isspace` on one character: the characters Python treats as
      whitespace. */
  predicate IsSpace(c: char)
  {
    || c == ' ' || ('\t' <= c <= '\r') || ('\U{1c}' <= c <= '\U{1f}')
    || c == '\U{85}' || c == '\U{a0}' || c == '\U{1680}' || ('\U{2000}' <= c <= '\U{200a}')
    || c == '\U{2028}' || c == '\U{2029}' || c == '\U{202f}' || c == '\U{205f}' || c == '\U{3000}'
  }

  predicate AllSpace(s: string)
  {
    forall i :: 0 <= i < |s| ==> IsSpace(s[i])
  }

  /** `s.lstrip()`: the longest suffix of `s` that does not start with whitespace. */
  function LStrip(s: string): (r: string)
    ensures |r| <= |s| && r == s[|s| - |r|..]
    ensures forall i :: 0 <= i < |s| - |r| ==> IsSpace(s[i])
    ensures r != [] ==> !IsSpace(r[0])
  {
    if s == [] || !IsSpace(s[0]) then s else LStrip(s[1..])
  }

  /** `s.rstrip()`: the longest prefix of `s` that does not end with whitespace. */
  function RStrip(s: string): (r: string)
    ensures |r| <= |s| && r == s[..|r|]
    ensures forall i :: |r| <= i < |s| ==> IsSpace(s[i])
    ensures r != [] ==> !IsSpace(r[|r| - 1])
  {
    if s == [] || !IsSpace(s[|s| - 1]) then s else RStrip(s[..|s| - 1])
  }

  /** `r` sits in `s` at offset `a` with only whitespace around it. */
  predicate Framed(s: string, r: string, a: int)
  {
    0 <= a <= |s| - |r| && r == s[a..a + |r|] && AllSpace(s[..a]) && AllSpace(s[a + |r|..])
  }

  /** `s.strip()`: `s` without the whitespace around it (where it sits in
      `s` is `StripWindow`). */
  function Strip(s: string): (r: string)
    ensures r == [] <==> AllSpace(s)
    ensures r != [] ==> !IsSpace(r[0]) && !IsSpace(r[|r| - 1])
  {
    StripBlank(s);
    RStrip(LStrip(s))
  }

  /** The stripped text is a stretch of `s` with only whitespace before
      and after it. */
  lemma StripWindow(s: string)
    ensures exists a :: Framed(s, Strip(s), a)
  {
    var l := LStrip(s);
    var r := RStrip(l);
    var a := |s| - |l|;
    assert l == s[a..];
    assert r == s[a..a + |r|];
    var h := s[..a];
    forall i | 0 <= i < |h| ensures IsSpace(h[i]) {
      assert h[i] == s[i];
    }
    var t := l[|r|..];
    assert s[a + |r|..] == t;
    forall i | 0 <= i < |t| ensures IsSpace(t[i]) {
      assert t[i] == l[|r| + i];
    }
    assert AllSpace(h) && AllSpace(t);
    assert Strip(s) == r;
    assert Framed(s, r, a);
  }

  /** The rstripped lstrip of `s` is empty exactly for blank text, and
      otherwise starts with the first character that is not whitespace. */
  lemma StripBlank(s: string)
    ensures var l := LStrip(s); var r := RStrip(l);
      && (r == [] <==> AllSpace(s))
      && (r != [] ==> !IsSpace(r[0]))
  {
    var l := LStrip(s);
    var r := RStrip(l);
    var a := |s| - |l|;
    if r == [] {
      assert l == [];
      forall i | 0 <= i < |s| ensures IsSpace(s[i]) {
      }
    } else {
      assert r[0] == l[0] == s[a];
    }
  }

  /** Text that neither starts nor ends with whitespace is left as it is. */
  lemma StripUnchanged(s: string)
    requires s != [] && !IsSpace(s[0]) && !IsSpace(s[|s| - 1])
    ensures Strip(s) == s
  {
  }

  /** Stripping twice removes nothing more. */
  lemma StripIdempotent(s: string)
    ensures Strip(Strip(s)) == Strip(s)
  {
    if Strip(s) != [] {
      StripUnchanged(Strip(s));
    }
  }

  /** The outputs list from position `i` on: the reply to chunk `i + 1`,
      then its separator unless it is the last chunk. */
  function OutputsFrom(replies: seq<string>, i: nat): seq<string>
    requires i <= |replies|
    decreases |replies| - i
  {
    if i == |replies| then []
    else
      var sep := if |replies| > 1 && i + 1 < |replies| then [Separator(i + 1, |replies|)] else [];
      [replies[i]] + sep + OutputsFrom(replies, i + 1)
  }

  /** The whole `outputs` list once every chunk has been answered. */
  function Outputs(replies: seq<string>): seq<string>
  {
    OutputsFrom(replies, 0)
  }

  /** What the outputs list holds at position `p`: replies at even
      positions, the separator after reply `p / 2 + 1` at odd ones. */
  function OutputAt(replies: seq<string>, p: nat): string
    requires p < 2 * |replies|
  {
    if p % 2 == 0 then replies[p / 2] else Separator(p / 2 + 1, |replies|)
  }

  lemma {:induction false} OutputsFromLength(replies: seq<string>, i: nat)
    requires i < |replies|
    ensures |OutputsFrom(replies, i)| == 2 * (|replies| - i) - 1
    decreases |replies| - i
  {
    if i + 1 < |replies| {
      OutputsFromLength(replies, i + 1);
    }
  }

  /** Position `g - 2i` of the outputs from chunk `i + 1` on is position
      `g` of the whole list. */
  lemma {:induction false} OutputsFromAt(replies: seq<string>, i: nat, g: nat)
    requires i < |replies| && 2 * i <= g && g - 2 * i < |OutputsFrom(replies, i)|
    ensures g < 2 * |replies| && OutputsFrom(replies, i)[g - 2 * i] == OutputAt(replies, g)
    decreases g - 2 * i
  {
    OutputsFromLength(replies, i);
    var out := OutputsFrom(replies, i);
    if g == 2 * i {
      assert g % 2 == 0 && g / 2 == i;
    } else if g == 2 * i + 1 {
      assert out[1] == Separator(i + 1, |replies|);
      assert g % 2 == 1 && g / 2 == i;
    } else {
      OutputsFromAt(replies, i + 1, g);
      assert out[g - 2 * i] == OutputsFrom(replies, i + 1)[g - 2 * (i + 1)];
    }
  }

  /** The whole outputs list: 2n - 1 entries for n replies, none for none;
      reply k + 1 at position 2k, and separator k + 1 of n right after it
      for every reply but the last. */
  lemma OutputsShape(replies: seq<string>)
    ensures replies == [] ==> Outputs(replies) == []
    ensures replies != [] ==>
      && |Outputs(replies)| == 2 * |replies| - 1
      && forall p :: 0 <= p < |Outputs(replies)| ==> Outputs(replies)[p] == OutputAt(replies, p)
  {
    if replies != [] {
      OutputsFromLength(replies, 0);
      forall p | 0 <= p < |Outputs(replies)| ensures Outputs(replies)[p] == OutputAt(replies, p) {
        OutputsFromAt(replies, 0, p);
      }
    }
  }

  /** An independent reading of the joined outputs: each reply, then for
      every chunk but the last a newline, its separator and a newline. */
  function TranscriptFrom(replies: seq<string>, i: nat): string
    requires i < |replies|
    decreases |replies| - i
  {
    if i == |replies| - 1 then replies[i]
    else replies[i] + "\n" + Separator(i + 1, |replies|) + "\n" + TranscriptFrom(replies, i + 1)
  }

  function Transcript(replies: seq<string>): string
  {
    if replies == [] then "" else TranscriptFrom(replies, 0)
  }

  lemma {:induction false} JoinOutputsFrom(replies: seq<string>, i: nat)
    requires i < |replies|
    ensures JoinLines(OutputsFrom(replies, i)) == TranscriptFrom(replies, i)
    decreases |replies| - i
  {
    var out := OutputsFrom(replies, i);
    if i + 1 < |replies| {
      JoinOutputsFrom(replies, i + 1);
      var rest := OutputsFrom(replies, i + 1);
      assert out == [replies[i], Separator(i + 1, |replies|)] + rest;
      assert rest != [];
      assert out[1..] == [Separator(i + 1, |replies|)] + rest;
      assert out[1..][1..] == rest;
    } else {
      assert out == [replies[i]];
    }
  }

  lemma JoinOutputs(replies: seq<string>)
    ensures JoinLines(Outputs(replies)) == Transcript(replies)
  {
    if replies != [] {
      JoinOutputsFrom(replies, 0);
    }
  }

  /** The text returned for the replies: stripped, with one final newline. */
  function Assembled(replies: seq<string>): (text: string)
    ensures |text| >= 1 && text[|text| - 1] == '\n'
    ensures var body := text[..|text| - 1];
      body != [] ==> !IsSpace(body[0]) && !IsSpace(body[|body| - 1])
  {
    var body := Strip(JoinLines(Outputs(replies)));
    assert (body + "\n")[..|body|] == body;
    body + "\n"
  }

  lemma {:induction false} TranscriptEnds(replies: seq<string>, i: nat)
    requires i < |replies|
    ensures var t := TranscriptFrom(replies, i);
      && t[..|replies[i]|] == replies[i]
      && |replies[|replies| - 1]| <= |t|
      && t[|t| - |replies[|replies| - 1]|..] == replies[|replies| - 1]
    decreases |replies| - i
  {
    if i + 1 < |replies| {
      TranscriptEnds(replies, i + 1);
      var mid := replies[i] + "\n" + Separator(i + 1, |replies|) + "\n";
      var t := TranscriptFrom(replies, i);
      assert t == mid + TranscriptFrom(replies, i + 1);
      assert t[..|replies[i]|] == mid[..|replies[i]|];
    }
  }

  /** When the first reply does not start, and the last does not end, with
      whitespace, stripping removes nothing: the text is every reply in
      order, separated by the chunk markers, plus a newline. */
  lemma AssembledExactly(replies: seq<string>)
    requires |replies| >= 1
    requires replies[0] != [] && !IsSpace(replies[0][0])
    requires var last := replies[|replies| - 1]; last != [] && !IsSpace(last[|last| - 1])
    ensures Assembled(replies) == Transcript(replies) + "\n"
  {
    JoinOutputs(replies);
    TranscriptEnds(replies, 0);
    var t := Transcript(replies);
    assert t[0] == t[..|replies[0]|][0];
    var last := replies[|replies| - 1];
    assert t[|t| - 1] == t[|t| - |last|..][|last| - 1];
    StripUnchanged(t);
  }

  /** A single chunk's reply comes back stripped, with no separator. */
  lemma SingleReply(reply: string)
    ensures Assembled([reply]) == Strip(reply) + "\n"
  {
    JoinOutputs([reply]);
  }

  /** The loop of `call_openai_on_tree_json` over the chunks, given the
      reply to each, followed by the final join and strip. */
  method AssembleResponses(replies: seq<string>) returns (text: string)
    ensures text == Assembled(replies)
  {
    var outputs: seq<string> := [];
    var idx := 1;
    while idx <= |replies|
      invariant 1 <= idx <= |replies| + 1
      invariant outputs + OutputsFrom(replies, idx - 1) == Outputs(replies)
    {
      ghost var before := outputs;
      ghost var sep := if |replies| > 1 && idx < |replies| then [Separator(idx, |replies|)] else [];
      ghost var after := OutputsFrom(replies, idx);
      assert OutputsFrom(replies, idx - 1) == [replies[idx - 1]] + sep + after;
      outputs := outputs + [replies[idx - 1]];
      if |replies| > 1 && idx < |replies| {
        outputs := outputs + [Separator(idx, |replies|)];
      }
      assert outputs == before + [replies[idx - 1]] + sep;
      assert outputs + after == before + ([replies[idx - 1]] + sep + after);
      idx := idx + 1;
    }
    assert outputs == Outputs(replies);
    text := Strip(JoinLines(outputs)) + "\n";
  }
}
