/** The unit selection of `human_size` (md_tree.py:23-28): the size is
    divided by 1024 until it drops below 1024 or the unit list runs out, and
    the number of divisions picks the unit. Below 1024 the text is the exact
    byte count followed by "B". The one-decimal rendering of the scaled value
    for KB and above is floating-point formatting and is not modelled. */
module HumanSize {
  import opened Strings

  const Units: seq<string> := ["B", "KB", "MB", "GB", "TB", "PB"]

  function Pow1024(k: nat): (p: nat)
    ensures p >= 1
  {
    if k == 0 then 1 else 1024 * Pow1024(k - 1)
  }

  /** A size as `human_size` renders it: the exact text for bytes, or the
      power of 1024 whose unit (`Units[power]`) follows the scaled value. */
  datatype SizeText = Bytes(text: string) | Scaled(power: nat)

  lemma MulMonotone(a: nat, b: nat, p: nat)
    requires a <= b
    ensures a * p <= b * p
  {
  }

  /** One division step keeps `n` the integer part of `num / 1024^k`. */
  lemma DivideStep(num: nat, n: nat, p: nat)
    requires p >= 1 && n * p <= num < (n + 1) * p
    ensures (n / 1024) * (1024 * p) <= num < (n / 1024 + 1) * (1024 * p)
  {
    var q, r := n / 1024, n % 1024;
    assert n == 1024 * q + r && r < 1024;
    assert q * (1024 * p) == (1024 * q) * p;
    MulMonotone(1024 * q, n, p);
    assert (q + 1) * (1024 * p) == (1024 * (q + 1)) * p;
    MulMonotone(n + 1, 1024 * (q + 1), p);
  }

  lemma ScaledBounds(num: nat, n: nat, p: nat)
    requires p >= 1 && n * p <= num < (n + 1) * p
    ensures n >= 1 ==> p <= num
    ensures n < 1024 ==> num < 1024 * p
  {
  }

  /** `human_size`: the loop over the units. */
  method HumanSizeOf(num: nat) returns (h: SizeText)
    ensures h.Bytes? <==> num < 1024
    ensures h.Bytes? ==> h.text == DecimalString(num) + "B"
    ensures h.Scaled? ==>
      && 1 <= h.power < |Units|
      && Pow1024(h.power) <= num
      && (h.power + 1 < |Units| ==> num < Pow1024(h.power + 1))
  {
    var n := num;
    var k := 0;
    var p := 1;
    while k < 5 && n >= 1024
      invariant k <= 5 && p == Pow1024(k)
      invariant n * p <= num < (n + 1) * p
      invariant k > 0 ==> n >= 1
    {
      DivideStep(num, n, p);
      n := n / 1024;
      k := k + 1;
      p := 1024 * p;
    }
    ScaledBounds(num, n, p);
    if k == 0 {
      h := Bytes(DecimalString(num) + "B");
    } else {
      h := Scaled(k);
    }
  }
}
