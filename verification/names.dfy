/**
 * Decimal rendering of natural numbers and the `T<tensor>.size[<dim>]`
 * names given to symbolic tensor sizes. Distinct tensor and dimension
 * numbers always give distinct names.
 */
module Names {

  predicate IsDigit(c: char) {
    '0' <= c <= '9'
  }

  function DigitChar(d: nat): (c: char)
    requires d < 10
    ensures IsDigit(c)
  {
    ['0', '1', '2', '3', '4', '5', '6', '7', '8', '9'][d]
  }

  function DigitValue(c: char): (d: nat)
    requires IsDigit(c)
    ensures d < 10
  {
    (c as int - '0' as int) as nat
  }

  lemma DigitRoundTrip(d: nat)
    requires d < 10
    ensures DigitValue(DigitChar(d)) == d
  {
  }

  predicate AllDigits(s: string) {
    forall i :: 0 <= i < |s| ==> IsDigit(s[i])
  }

  /** The decimal digits of `n`, most significant first, without leading zeros. */
  function NatToString(n: nat): (s: string)
    ensures |s| > 0 && AllDigits(s)
    decreases n
  {
    if n < 10 then [DigitChar(n)]
    else NatToString(n / 10) + [DigitChar(n % 10)]
  }

  /** The number a string of decimal digits stands for. */
  function ParseNat(s: string): nat
    requires AllDigits(s)
    decreases |s|
  {
    if s == [] then 0
    else ParseNat(s[..|s| - 1]) * 10 + DigitValue(s[|s| - 1])
  }

  /** Reading back the decimal rendering gives the number. */
  lemma {:induction false} ParseNatToString(n: nat)
    ensures ParseNat(NatToString(n)) == n
    decreases n
  {
    var s := NatToString(n);
    if n < 10 {
      DigitRoundTrip(n);
      assert s[..0] == [];
    } else {
      ParseNatToString(n / 10);
      DigitRoundTrip(n % 10);
      assert s[..|s| - 1] == NatToString(n / 10);
    }
  }

  lemma NatToStringInjective(a: nat, b: nat)
    requires NatToString(a) == NatToString(b)
    ensures a == b
  {
    ParseNatToString(a);
    ParseNatToString(b);
  }

  /** `T<tv><tag><k>]`: the shape shared by the size and stride names. */
  function Tagged(tag: string, tv: nat, k: nat): string {
    "T" + NatToString(tv) + tag + NatToString(k) + "]"
  }

  /** The name of dimension `dim` of tensor `tv`. */
  function SizeName(tv: nat, dim: nat): string {
    Tagged(".size[", tv, dim)
  }

  /** The name of the stride of the `k`-th strided dimension of tensor `tv`. */
  function StrideName(tv: nat, k: nat): string {
    Tagged(".stride[", tv, k)
  }

  /** A digit string followed by a non-digit is split by that first non-digit. */
  lemma DigitsPrefix(a1: string, x1: string, a2: string, x2: string)
    requires AllDigits(a1) && AllDigits(a2)
    requires x1 != [] && x2 != [] && !IsDigit(x1[0]) && !IsDigit(x2[0])
    requires a1 + x1 == a2 + x2
    ensures a1 == a2 && x1 == x2
  {
    var k := if |a1| < |a2| then |a1| else |a2|;
    var c := (a1 + x1)[k];
    assert c == (a2 + x2)[k];
    assert IsDigit(c) <==> k < |a1|;
    assert IsDigit(c) <==> k < |a2|;
    assert |a1| == |a2|;
    assert a1 == (a1 + x1)[..|a1|];
    assert a2 == (a2 + x2)[..|a2|];
    assert x1 == (a1 + x1)[|a1|..];
    assert x2 == (a2 + x2)[|a2|..];
  }

  /** Equal strings with a common prefix agree after it. */
  lemma PrefixCancel(p: string, x: string, y: string)
    requires p + x == p + y
    ensures x == y
  {
    assert x == (p + x)[|p|..];
    assert y == (p + y)[|p|..];
  }

  /** A tagged name regrouped from the right. */
  lemma TaggedShape(tag: string, tv: nat, k: nat)
    ensures Tagged(tag, tv, k) == "T" + (NatToString(tv) + (tag + (NatToString(k) + "]")))
  {
  }

  /** A tag that starts with a non-digit separates the two numbers of a tagged name. */
  lemma TaggedInjective(tag: string, tv1: nat, k1: nat, tv2: nat, k2: nat)
    requires tag != [] && !IsDigit(tag[0])
    requires Tagged(tag, tv1, k1) == Tagged(tag, tv2, k2)
    ensures tv1 == tv2 && k1 == k2
  {
    var n1, n2 := NatToString(tv1), NatToString(tv2);
    var d1, d2 := NatToString(k1), NatToString(k2);
    var rest1, rest2 := tag + (d1 + "]"), tag + (d2 + "]");
    TaggedShape(tag, tv1, k1);
    TaggedShape(tag, tv2, k2);
    PrefixCancel("T", n1 + rest1, n2 + rest2);
    assert rest1[0] == tag[0] && rest2[0] == tag[0];
    DigitsPrefix(n1, rest1, n2, rest2);
    NatToStringInjective(tv1, tv2);
    PrefixCancel(tag, d1 + "]", d2 + "]");
    DigitsPrefix(d1, "]", d2, "]");
    NatToStringInjective(k1, k2);
  }

  /** Distinct tensor or dimension numbers give distinct size names. */
  lemma SizeNameInjective(tv1: nat, dim1: nat, tv2: nat, dim2: nat)
    requires SizeName(tv1, dim1) == SizeName(tv2, dim2)
    ensures tv1 == tv2 && dim1 == dim2
  {
    TaggedInjective(".size[", tv1, dim1, tv2, dim2);
  }

  /** Distinct tensor or stride numbers give distinct stride names. */
  lemma StrideNameInjective(tv1: nat, k1: nat, tv2: nat, k2: nat)
    requires StrideName(tv1, k1) == StrideName(tv2, k2)
    ensures tv1 == tv2 && k1 == k2
  {
    TaggedInjective(".stride[", tv1, k1, tv2, k2);
  }

  lemma SizeNameExample()
    ensures SizeName(0, 1) == "T0.size[1]"
    ensures SizeName(12, 3) == "T12.size[3]"
  {
  }
}
