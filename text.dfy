/**
 * The few java.lang.String operations the aggregator relies on, over
 * Dafny strings (sequences of characters).
 */
module Text {

  /** String.startsWith */
  predicate StartsWith(s: string, prefix: string) {
    prefix <= s
  }

  /** String.contains: `sub` occurs somewhere in `s`. */
  predicate Contains(s: string, sub: string)
    decreases |s|
  {
    sub <= s || (|s| > 0 && Contains(s[1..], sub))
  }

  /**
   * String.indexOf(String): the first index at which `sub` occurs in `s`,
   * or -1 when it does not occur.
   */
  function IndexOf(s: string, sub: string): (r: int)
    ensures -1 <= r
    ensures r >= 0 ==> r + |sub| <= |s| && s[r..r + |sub|] == sub
    ensures r >= 0 ==> forall k :: 0 <= k < r ==> !(sub <= s[k..])
    ensures r < 0 ==> forall k :: 0 <= k <= |s| ==> !(sub <= s[k..])
    decreases |s|
  {
    if sub <= s then 0
    else if |s| == 0 then -1
    else
      var r := IndexOf(s[1..], sub);
      assert forall k :: 1 <= k <= |s| ==> s[k..] == s[1..][k - 1..];
      if r < 0 then -1 else r + 1
  }

  /** `sub` occurs in `s` exactly when indexOf finds it. */
  lemma {:induction false} IndexOfFindsContained(s: string, sub: string)
    ensures IndexOf(s, sub) >= 0 <==> Contains(s, sub)
    decreases |s|
  {
    if !(sub <= s) && |s| > 0 {
      IndexOfFindsContained(s[1..], sub);
    }
  }

  /**
   * String.replace(CharSequence, CharSequence) with a non-empty target:
   * every occurrence of `target`, scanning left to right without overlap,
   * is replaced by `replacement`.
   */
  function ReplaceAll(s: string, target: string, replacement: string): (r: string)
    requires |target| > 0
    ensures !Contains(s, target) ==> r == s
    decreases |s|
  {
    if target <= s then replacement + ReplaceAll(s[|target|..], target, replacement)
    else if |s| == 0 then ""
    else [s[0]] + ReplaceAll(s[1..], target, replacement)
  }

  /**
   * The number of occurrences of `target` the left-to-right scan of
   * String.replace finds in `s`, without overlap.
   */
  function Occurrences(s: string, target: string): (n: nat)
    requires |target| > 0
    ensures n == 0 <==> !Contains(s, target)
    ensures n <= |s|
    decreases |s|
  {
    if target <= s then 1 + Occurrences(s[|target|..], target)
    else if |s| == 0 then 0
    else
      assert Contains(s, target) == Contains(s[1..], target);
      Occurrences(s[1..], target)
  }

  /** Every occurrence the scan finds changes the length by the difference of the two strings. */
  lemma {:induction false} ReplaceAllLength(s: string, target: string, replacement: string)
    requires |target| > 0
    ensures |ReplaceAll(s, target, replacement)| == |s| + Occurrences(s, target) * (|replacement| - |target|)
    decreases |s|
  {
    if target <= s {
      var rest := s[|target|..];
      ReplaceAllLength(rest, target, replacement);
      OneMoreOccurrence(|s|, |rest|, |target|, |replacement|, Occurrences(rest, target));
    } else if |s| > 0 {
      ReplaceAllLength(s[1..], target, replacement);
    }
  }

  lemma OneMoreOccurrence(lenS: int, lenRest: int, lenTarget: int, lenReplacement: int, k: int)
    requires lenS == lenTarget + lenRest
    ensures lenReplacement + (lenRest + k * (lenReplacement - lenTarget))
         == lenS + (1 + k) * (lenReplacement - lenTarget)
  {
  }

  /** Replacing the target by itself changes nothing. */
  lemma {:induction false} ReplaceAllBySelf(s: string, target: string)
    requires |target| > 0
    ensures ReplaceAll(s, target, target) == s
    decreases |s|
  {
    if target <= s {
      ReplaceAllBySelf(s[|target|..], target);
      assert s == target + s[|target|..];
    } else if |s| > 0 {
      ReplaceAllBySelf(s[1..], target);
      assert s == [s[0]] + s[1..];
    }
  }

  /**
   * The first character of `t` occurs nowhere else in it, so no two
   * occurrences of `t` can overlap.
   */
  predicate LeadUnique(t: string) {
    |t| > 0 && t[0] !in t[1..]
  }

  /**
   * Appending a target whose first character is unique to a string puts the
   * replacement at the end of the replaced string: the left-to-right scan
   * never consumes a piece of the appended target early.
   */
  lemma {:induction false} ReplaceAllAppendedTarget(p: string, t: string, replacement: string)
    requires LeadUnique(t)
    ensures ReplaceAll(p + t, t, replacement) == ReplaceAll(p, t, replacement) + replacement
    decreases |p|
  {
    if p == [] {
      assert p + t == t;
      assert t[|t|..] == [];
    } else if t <= p {
      assert t <= p + t;
      assert (p + t)[|t|..] == p[|t|..] + t;
      ReplaceAllAppendedTarget(p[|t|..], t, replacement);
    } else {
      if |p| < |t| {
        assert t[|p|] in t[1..];
        assert (p + t)[|p|] == t[0];
      } else {
        assert (p + t)[..|t|] == p[..|t|];
      }
      assert !(t <= p + t);
      assert (p + t)[1..] == p[1..] + t;
      ReplaceAllAppendedTarget(p[1..], t, replacement);
    }
  }

  function DigitChar(d: nat): (c: char)
    requires d < 10
    ensures '0' <= c <= '9'
    ensures c as int - '0' as int == d
  {
    "0123456789"[d]
  }

  /** Every character is a decimal digit. */
  predicate DigitsOnly(s: string) {
    forall i :: 0 <= i < |s| ==> '0' <= s[i] <= '9'
  }

  /** The number a string of decimal digits denotes, most significant first. */
  function DigitsValue(s: string): (n: nat)
    requires DigitsOnly(s)
    decreases |s|
  {
    if |s| == 0 then 0
    else 10 * DigitsValue(s[..|s| - 1]) + (s[|s| - 1] as int - '0' as int)
  }

  /** Decimal digits of a natural number, most significant first. */
  function NatToString(n: nat): (r: string)
    ensures |r| > 0
    ensures DigitsOnly(r)
    decreases n
  {
    if n < 10 then [DigitChar(n)] else NatToString(n / 10) + [DigitChar(n % 10)]
  }

  /** The digits NatToString writes denote the number, with no leading zero. */
  lemma {:induction false} NatToStringValue(n: nat)
    ensures DigitsValue(NatToString(n)) == n
    ensures |NatToString(n)| > 1 ==> NatToString(n)[0] != '0'
    decreases n
  {
    var r := NatToString(n);
    if n >= 10 {
      NatToStringValue(n / 10);
      assert r[..|r| - 1] == NatToString(n / 10);
      assert r[0] == NatToString(n / 10)[0];
      if |NatToString(n / 10)| == 1 {
        assert n / 10 > 0;
      }
    }
  }

  /** String.valueOf(long), for a value given as an unbounded integer. */
  function IntToString(i: int): (r: string)
    ensures |r| > 0
    ensures r[0] == '-' <==> i < 0
    ensures i < 0 ==> DigitsOnly(r[1..])
    ensures i >= 0 ==> DigitsOnly(r)
  {
    if i < 0 then DropSign(NatToString(-i)); "-" + NatToString(-i) else NatToString(i)
  }

  /** The text of a number is its sign, when negative, followed by the digits of its magnitude. */
  lemma IntToStringValue(i: int)
    ensures i < 0 ==> DigitsValue(IntToString(i)[1..]) == -i
    ensures i >= 0 ==> DigitsValue(IntToString(i)) == i
  {
    if i < 0 {
      NegatedDigits(-i);
    } else {
      NatToStringValue(i);
    }
  }

  lemma NegatedDigits(n: nat)
    ensures ("-" + NatToString(n))[1..] == NatToString(n)
    ensures DigitsValue(("-" + NatToString(n))[1..]) == n
  {
    DropSign(NatToString(n));
    NatToStringValue(n);
  }

  lemma DropSign(t: string)
    ensures ("-" + t)[1..] == t
  {
  }
}
