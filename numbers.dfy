/**
 * `pretty_number` of aks/main.py: counts below a thousand are printed as they are,
 * larger ones as a rounded number of thousands ("k") or millions ("M").
 * Python's `round(n / 1000)` rounds half to even. The source divides in floating point; the
 * model divides exactly. The two agree for every n below 1000000 (the `k` range) and, in the `M`
 * range, for every n below 2^34 * 10^6 (about 1.7 * 10^16). Above that bound the double nearest
 * to n / 1000000 can land on a half that the exact quotient does not have.
 */
module Numbers {
  import opened Wrappers
  import opened Text

  /** `r` is the integer nearest to n/d, and an even one when n/d lies halfway between two integers. */
  predicate NearestHalfEven(n: int, d: int, r: int)
    requires d > 0
  {
    var twiceError := 2 * n - 2 * (r * d);
    -d <= twiceError <= d && ((twiceError == d || twiceError == -d) ==> r % 2 == 0)
  }

  /** Python's `round(n / d)` for a non-negative integer `n`. */
  function RoundHalfEven(n: nat, d: nat): (r: nat)
    requires d > 0
    ensures NearestHalfEven(n, d, r)
  {
    var q, rem := n / d, n % d;
    assert n == q * d + rem;
    assert (q + 1) * d == q * d + d;
    if 2 * rem < d then q
    else if 2 * rem > d then q + 1
    else if q % 2 == 0 then q
    else q + 1
  }

  lemma MulGap(a: int, b: int, d: int)
    requires d > 0 && a < b
    ensures b * d - a * d >= d
    ensures b >= a + 2 ==> b * d - a * d >= 2 * d
  {
    var k := b - a;
    assert b * d - a * d == k * d;
    assert k * d == d + (k - 1) * d;
    assert (k - 1) * d >= 0;
    if k >= 2 {
      assert k * d == 2 * d + (k - 2) * d;
      assert (k - 2) * d >= 0;
    }
  }

  /** The rounding rule leaves no choice: at most one integer satisfies it. */
  lemma NearestHalfEvenUnique(n: int, d: int, r1: int, r2: int)
    requires d > 0 && NearestHalfEven(n, d, r1) && NearestHalfEven(n, d, r2)
    ensures r1 == r2
  {
    if r1 < r2 {
      MulGap(r1, r2, d);
    } else if r2 < r1 {
      MulGap(r2, r1, d);
    }
  }

  /** `pretty_number(n)`, for the non-negative counts the tool prints. */
  function PrettyNumber(n: nat): (s: string)
    ensures n < 1000 ==> ParseNat(s) == Some(n)
    ensures 1000 <= n < 1000000 ==>
      |s| > 1 && s[|s| - 1] == 'k' && ParseNat(s[..|s| - 1]).Some?
      && NearestHalfEven(n, 1000, ParseNat(s[..|s| - 1]).value)
    ensures 1000000 <= n ==>
      |s| > 1 && s[|s| - 1] == 'M' && ParseNat(s[..|s| - 1]).Some?
      && NearestHalfEven(n, 1000000, ParseNat(s[..|s| - 1]).value)
  {
    if n < 1000 then
      ParseNatToString(n);
      NatToString(n)
    else
      var d := if n < 1000000 then 1000 else 1000000;
      var m := RoundHalfEven(n, d);
      var digits := NatToString(m);
      ParseNatToString(m);
      var s := digits + [if n < 1000000 then 'k' else 'M'];
      assert s[..|s| - 1] == digits;
      s
  }

  /** In the thousands range the printed figure runs from 1 to 1000: 999500 and above print as "1000k". */
  lemma ThousandsMantissaBounds(n: nat)
    requires 1000 <= n < 1000000
    ensures 1 <= RoundHalfEven(n, 1000) <= 1000
  {
  }

  lemma SmallNumberExample()
    ensures PrettyNumber(999) == "999"
  {
    assert NatToString(99) == "99";
    assert NatToString(999) == "999";
  }

  lemma ThousandsExample()
    ensures PrettyNumber(516930) == "517k"
  {
    assert RoundHalfEven(516930, 1000) == 517;
    assert NatToString(51) == "51";
    assert NatToString(517) == "517";
  }

  /** Ties go to the even neighbour: 1500 and 2500 both print as "2k". */
  lemma TieExamples()
    ensures PrettyNumber(1500) == "2k"
    ensures PrettyNumber(2500) == "2k"
    ensures PrettyNumber(2500000) == "2M"
  {
    assert RoundHalfEven(1500, 1000) == 2;
    assert RoundHalfEven(2500, 1000) == 2;
    assert RoundHalfEven(2500000, 1000000) == 2;
  }

  lemma RoundsUpToThousandExample()
    ensures PrettyNumber(999500) == "1000k"
  {
    assert RoundHalfEven(999500, 1000) == 1000;
    assert NatToString(100) == "10" + "0";
    assert NatToString(1000) == "100" + "0";
  }
}
