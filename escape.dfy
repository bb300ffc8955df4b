/** The Markdown escaper `escape_md` (md_tree.py:30-33): thirteen successive
    `str.replace` passes, each putting a backslash before one special
    character. Because the backslash itself is the first pass, the
    backslashes added by later passes are never escaped again, and the result
    is the one-pass escape `Escaped` below. */
module Escape {

  /** The characters `escape_md` escapes, in the order it processes them. */
  const Specials: seq<char> := ['\\', '*', '_', '`', '[', ']', '(', ')', '#', '+', '!', '>', '|']

  /** `s.replace(ch, rep)` for a one-character pattern. */
  function Replace(s: string, ch: char, rep: string): string
  {
    if s == [] then [] else (if s[0] == ch then rep else [s[0]]) + Replace(s[1..], ch, rep)
  }

  /** One character as it stands once the characters of `done` are escaped. */
  function EscapeCharWith(c: char, done: seq<char>): string
  {
    if c in done then ['\\', c] else [c]
  }

  /** `s` once the characters of `done` are escaped, each exactly once. */
  function EscapedWith(s: string, done: seq<char>): string
  {
    if s == [] then [] else EscapeCharWith(s[0], done) + EscapedWith(s[1..], done)
  }

  /** The meaning of `escape_md`: every special character gets one backslash
      in front of it, every other character is kept. */
  function Escaped(s: string): string
  {
    EscapedWith(s, Specials)
  }

  /** The number of special characters in `s`. */
  function CountSpecials(s: string): nat
  {
    if s == [] then 0 else (if s[0] in Specials then 1 else 0) + CountSpecials(s[1..])
  }

  /** Reading an escaped text back: a backslash makes the next character literal. */
  function Unescape(t: string): string
  {
    if t == [] then []
    else if t[0] == '\\' && |t| >= 2 then [t[1]] + Unescape(t[2..])
    else [t[0]] + Unescape(t[1..])
  }

  lemma {:induction false} ReplaceAppend(a: string, b: string, ch: char, rep: string)
    ensures Replace(a + b, ch, rep) == Replace(a, ch, rep) + Replace(b, ch, rep)
  {
    if a == [] {
      assert a + b == b;
    } else {
      assert (a + b)[0] == a[0] && (a + b)[1..] == a[1..] + b;
      ReplaceAppend(a[1..], b, ch, rep);
    }
  }

  lemma SpecialsDistinct()
    ensures forall i, j :: 0 <= i < j < |Specials| ==> Specials[i] != Specials[j]
  {
  }

  lemma {:induction false} EscapedWithNothing(s: string)
    ensures EscapedWith(s, []) == s
  {
    if s != [] {
      EscapedWithNothing(s[1..]);
    }
  }

  /** Pass `k` of `escape_md` turns the text escaped for the first `k`
      specials into the text escaped for the first `k + 1`. */
  lemma {:induction false} ReplaceStep(s: string, k: nat)
    requires k < |Specials|
    ensures Replace(EscapedWith(s, Specials[..k]), Specials[k], ['\\', Specials[k]])
         == EscapedWith(s, Specials[..k + 1])
  {
    var ch := Specials[k];
    var rep := ['\\', ch];
    if s != [] {
      var c := s[0];
      SpecialsDistinct();
      ReplaceAppend(EscapeCharWith(c, Specials[..k]), EscapedWith(s[1..], Specials[..k]), ch, rep);
      ReplaceStep(s[1..], k);
      if c in Specials[..k] {
        assert Specials[0] == '\\' && k > 0;
        assert ch != '\\' && ch != c;
        assert Replace(['\\', c], ch, rep) == ['\\', c] by {
          assert ['\\', c][1..] == [c];
        }
      } else if c == ch {
        assert c in Specials[..k + 1];
      } else {
        assert c !in Specials[..k + 1];
      }
    }
  }

  /** `escape_md`: the thirteen replace passes over `name`. */
  method EscapeMd(name: string) returns (r: string)
    ensures r == Escaped(name)
  {
    r := name;
    EscapedWithNothing(name);
    for k := 0 to |Specials|
      invariant r == EscapedWith(name, Specials[..k])
    {
      ReplaceStep(name, k);
      r := Replace(r, Specials[k], ['\\', Specials[k]]);
    }
    assert Specials[..|Specials|] == Specials;
  }

  /** The escape adds exactly one character per special character. */
  lemma {:induction false} EscapedLength(s: string)
    ensures |Escaped(s)| == |s| + CountSpecials(s)
  {
    if s != [] {
      EscapedLength(s[1..]);
    }
  }

  /** A name without special characters comes back unchanged. */
  lemma {:induction false} EscapedPlain(s: string)
    requires forall i :: 0 <= i < |s| ==> s[i] !in Specials
    ensures Escaped(s) == s
  {
    if s != [] {
      EscapedPlain(s[1..]);
    }
  }

  /** Each special character is escaped exactly once: reading the escaped
      text back gives the original name. */
  lemma {:induction false} UnescapeEscaped(s: string)
    ensures Unescape(Escaped(s)) == s
  {
    if s != [] {
      var head := EscapeCharWith(s[0], Specials);
      var tail := Escaped(s[1..]);
      UnescapeEscaped(s[1..]);
      if s[0] in Specials {
        assert (head + tail)[2..] == tail;
      } else {
        assert s[0] != '\\';
        assert (head + tail)[1..] == tail;
      }
    }
  }
}
