/**
 * The string operations the pull-request list uses: lower-casing,
 * substring search and the decimal rendering of a number.
 */
module Text {

  /** char::to_lowercase, restricted to ASCII letters. */
  function LowerChar(c: char): (r: char)
    ensures 'A' <= c <= 'Z' ==> r as int == c as int + 32
    ensures !('A' <= c <= 'Z') ==> r == c
    ensures !('A' <= r <= 'Z')
  {
    if 'A' <= c <= 'Z' then (c as int + 32) as char else c
  }

  /** str::to_lowercase, over ASCII. */
  function Lower(s: string): (r: string)
    ensures |r| == |s|
    ensures forall i :: 0 <= i < |s| ==> r[i] == LowerChar(s[i])
  {
    if s == [] then [] else [LowerChar(s[0])] + Lower(s[1..])
  }

  /** Lower-casing twice is lower-casing once. */
  lemma LowerIdempotent(s: string)
    ensures Lower(Lower(s)) == Lower(s)
  {
    assert forall i :: 0 <= i < |s| ==> LowerChar(LowerChar(s[i])) == LowerChar(s[i]);
  }

  /** Lower-casing goes character by character, so it distributes over concatenation. */
  lemma LowerAppend(a: string, b: string)
    ensures Lower(a + b) == Lower(a) + Lower(b)
  {
    assert forall i :: 0 <= i < |a + b| ==> Lower(a + b)[i] == (Lower(a) + Lower(b))[i];
  }

  /** `needle` occurs in `hay` at position `k`. */
  predicate OccursAt(hay: string, needle: string, k: nat)
  {
    k + |needle| <= |hay| && hay[k..k + |needle|] == needle
  }

  /** The search from position `i` on. */
  function ContainsFrom(hay: string, needle: string, i: nat): (r: bool)
    decreases |hay| - i
    ensures r <==> exists k :: i <= k && OccursAt(hay, needle, k)
  {
    if i + |needle| > |hay| then
      assert forall k :: i <= k ==> !OccursAt(hay, needle, k);
      false
    else if hay[i..i + |needle|] == needle then
      assert OccursAt(hay, needle, i);
      true
    else
      var rest := ContainsFrom(hay, needle, i + 1);
      assert !OccursAt(hay, needle, i);
      rest
  }

  /** str::contains with a string pattern. */
  function Contains(hay: string, needle: string): (r: bool)
    ensures r <==> exists k :: OccursAt(hay, needle, k)
  {
    ContainsFrom(hay, needle, 0)
  }

  /** The empty string occurs in every string. */
  lemma ContainsEmpty(hay: string)
    ensures Contains(hay, "")
  {
    assert OccursAt(hay, "", 0);
  }

  /** A string occurs in every string that starts with it, and in every string that ends with it. */
  lemma ContainsEnds(a: string, b: string)
    ensures Contains(a + b, a) && Contains(a + b, b)
  {
    assert (a + b)[..|a|] == a;
    assert OccursAt(a + b, a, 0);
    assert (a + b)[|a|..|a| + |b|] == b;
    assert OccursAt(a + b, b, |a|);
  }

  /** Lower-casing a concatenation keeps both parts, lower-cased, as substrings. */
  lemma ContainsLowerParts(a: string, b: string)
    ensures Contains(Lower(a + b), Lower(a)) && Contains(Lower(a + b), Lower(b))
  {
    LowerAppend(a, b);
    ContainsEnds(Lower(a), Lower(b));
  }

  /** A substring of a substring is a substring. */
  lemma ContainsTrans(a: string, b: string, c: string)
    requires Contains(a, b) && Contains(b, c)
    ensures Contains(a, c)
  {
    var k: nat :| OccursAt(a, b, k);
    var m: nat :| OccursAt(b, c, m);
    assert a[k + m..k + m + |c|] == c by {
      forall t | 0 <= t < |c| ensures a[k + m..k + m + |c|][t] == c[t] {
        assert a[k..k + |b|][m + t] == b[m + t];
        assert b[m..m + |c|][t] == c[t];
      }
    }
    assert OccursAt(a, c, k + m);
  }

  function DigitChar(d: nat): (c: char)
    requires d < 10
    ensures '0' <= c <= '9'
  {
    "0123456789"[d]
  }

  /** The decimal digits of `n`, most significant first, without leading zeros. */
  function Digits(n: nat): (s: string)
    ensures |s| > 0 && forall i :: 0 <= i < |s| ==> '0' <= s[i] <= '9'
    ensures n >= 10 ==> s[0] != '0'
  {
    if n < 10 then [DigitChar(n)] else Digits(n / 10) + [DigitChar(n % 10)]
  }

  /** The `Display` text of an integer: an optional '-' and the digits. */
  function DecimalString(n: int): (s: string)
    ensures |s| > 0
    ensures forall i :: 0 <= i < |s| ==> ('0' <= s[i] <= '9' || s[i] == '-')
    ensures (s[0] == '-') <==> n < 0
  {
    if n < 0 then "-" + Digits(-n) else Digits(n)
  }

  /** Reading digits back: the value of a string of decimal digits. */
  function DigitsValue(s: string): int
    requires forall i :: 0 <= i < |s| ==> '0' <= s[i] <= '9'
  {
    if s == [] then 0 else 10 * DigitsValue(s[..|s| - 1]) + (s[|s| - 1] as int - '0' as int)
  }

  /** Reading the rendering back gives the number again. */
  lemma {:induction false} DigitsRoundTrip(n: nat)
    ensures DigitsValue(Digits(n)) == n
  {
    if n >= 10 {
      var s := Digits(n);
      assert s[..|s| - 1] == Digits(n / 10);
      DigitsRoundTrip(n / 10);
    }
  }

  /** Decimal text has no ASCII capitals, so lower-casing leaves it alone. */
  lemma LowerDecimal(n: int)
    ensures Lower(DecimalString(n)) == DecimalString(n)
  {
  }
}
