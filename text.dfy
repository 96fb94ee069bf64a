/** String primitives the upload layer relies on: ASCII lower-casing
    (JavaScript's toLowerCase restricted to ASCII), prefix and substring
    tests (startsWith, includes, an unanchored regular-expression test),
    and the decimal rendering of integers that template strings perform. */
module Text {

  /** ASCII lower-casing of one character; every other character is kept. */
  function LowerChar(c: char): (l: char)
    ensures 'A' <= c <= 'Z' ==> 'a' <= l <= 'z' && l as int - 'a' as int == c as int - 'A' as int
    ensures !('A' <= c <= 'Z') ==> l == c
  {
    if 'A' <= c <= 'Z' then (c as int + 32) as char else c
  }

  function Lower(s: string): (r: string)
    ensures |r| == |s|
    ensures forall i :: 0 <= i < |s| ==> r[i] == LowerChar(s[i])
  {
    seq(|s|, i requires 0 <= i < |s| => LowerChar(s[i]))
  }

  /** Lower-casing twice is lower-casing once. */
  lemma LowerIdempotent(s: string)
    ensures Lower(Lower(s)) == Lower(s)
  {
    assert forall i :: 0 <= i < |s| ==> LowerChar(LowerChar(s[i])) == LowerChar(s[i]);
  }

  /** String.prototype.startsWith. */
  predicate StartsWith(s: string, p: string) {
    |p| <= |s| && s[..|p|] == p
  }

  /** `t` is a suffix of `s`. */
  predicate EndsWith(s: string, t: string) {
    |t| <= |s| && s[|s| - |t|..] == t
  }

  /** String.prototype.includes, equivalently an unanchored regular-expression
      test for a literal: some position of `s` starts an occurrence of `t`. */
  predicate Contains(s: string, t: string)
    decreases |s|
  {
    StartsWith(s, t) || (|s| > 0 && Contains(s[1..], t))
  }

  /** Contains agrees with the positional definition of "occurs in". */
  lemma {:induction false} ContainsIffOccurs(s: string, t: string)
    ensures Contains(s, t) <==> exists i :: 0 <= i <= |s| && StartsWith(s[i..], t)
  {
    if Contains(s, t) {
      if StartsWith(s, t) {
        assert s[0..] == s;
      } else {
        ContainsIffOccurs(s[1..], t);
        var i :| 0 <= i <= |s[1..]| && StartsWith(s[1..][i..], t);
        assert s[1..][i..] == s[i + 1..];
      }
    } else {
      forall i | 0 <= i <= |s|
        ensures !StartsWith(s[i..], t)
      {
        if i > 0 {
          ContainsIffOccurs(s[1..], t);
          assert s[1..][i - 1..] == s[i..];
        } else {
          assert s[0..] == s;
        }
      }
    }
  }

  /** An occurrence inside either part is an occurrence inside the whole. */
  lemma ContainsInConcat(a: string, b: string, t: string)
    requires Contains(a, t) || Contains(b, t)
    ensures Contains(a + b, t)
  {
    ContainsIffOccurs(a, t);
    ContainsIffOccurs(b, t);
    ContainsIffOccurs(a + b, t);
    if Contains(a, t) {
      var i :| 0 <= i <= |a| && StartsWith(a[i..], t);
      assert (a + b)[i..] == a[i..] + b;
      assert (a + b)[i..][..|t|] == a[i..][..|t|];
      assert StartsWith((a + b)[i..], t);
    } else {
      var i :| 0 <= i <= |b| && StartsWith(b[i..], t);
      assert (a + b)[|a| + i..] == b[i..];
    }
  }

  /** Every string contains the empty string. */
  lemma ContainsEmpty(s: string)
    ensures Contains(s, "")
  {
  }

  /** `a` is never immediately followed by `b` in `s`. */
  predicate PairFree(s: string, a: char, b: char) {
    forall i :: 0 <= i < |s| - 1 ==> !(s[i] == a && s[i + 1] == b)
  }

  /** Pair-freeness of a join follows from that of its parts and of the seam. */
  lemma PairFreeConcat(x: string, y: string, a: char, b: char)
    requires PairFree(x, a, b) && PairFree(y, a, b)
    requires |x| > 0 && |y| > 0 ==> !(x[|x| - 1] == a && y[0] == b)
    ensures PairFree(x + y, a, b)
  {
    var s := x + y;
    forall i | 0 <= i < |s| - 1
      ensures !(s[i] == a && s[i + 1] == b)
    {
      if i + 1 < |x| {
        assert s[i] == x[i] && s[i + 1] == x[i + 1];
      } else if i >= |x| {
        assert s[i] == y[i - |x|] && s[i + 1] == y[i + 1 - |x|];
      }
    }
  }

  /** If two adjacent characters of `t` never stand side by side in `s`,
      `s` cannot contain `t`. */
  lemma {:induction false} NotContainsWithoutPair(s: string, t: string, j: nat)
    requires j + 1 < |t| && PairFree(s, t[j], t[j + 1])
    ensures !Contains(s, t)
  {
    if j + 1 < |s| {
      assert !(s[j] == t[j] && s[j + 1] == t[j + 1]);
    }
    if |s| > 0 {
      assert forall i :: 0 <= i < |s| - 2 ==> s[1..][i] == s[i + 1];
      NotContainsWithoutPair(s[1..], t, j);
    }
  }

  // ---------------------------------------------------------------------
  // Decimal rendering of integers (what `${n}` produces for a safe integer)

  predicate IsDigit(c: char) {
    '0' <= c <= '9'
  }

  predicate AllDigits(s: string) {
    forall i :: 0 <= i < |s| ==> IsDigit(s[i])
  }

  function DigitChar(d: nat): (c: char)
    requires d < 10
    ensures IsDigit(c) && c as int - '0' as int == d
  {
    (d + '0' as int) as char
  }

  /** The shortest decimal numeral of `n`, without sign or leading zeros. */
  function NatToString(n: nat): (s: string)
    ensures |s| > 0 && AllDigits(s)
    ensures |s| > 1 ==> s[0] != '0'
    decreases n
  {
    if n < 10 then [DigitChar(n)] else NatToString(n / 10) + [DigitChar(n % 10)]
  }

  /** The value of a string of decimal digits; the empty numeral is 0. */
  function ParseDigits(s: string): (n: nat)
    requires AllDigits(s)
    decreases |s|
  {
    if s == [] then 0
    else ParseDigits(s[..|s| - 1]) * 10 + (s[|s| - 1] as int - '0' as int)
  }

  /** Every numeral is a non-empty run of digits without a superfluous
      leading zero, and parsing it gives back the number. */
  lemma {:induction false} NatToStringRoundTrip(n: nat)
    ensures |NatToString(n)| > 0 && AllDigits(NatToString(n))
    ensures |NatToString(n)| > 1 ==> NatToString(n)[0] != '0'
    ensures ParseDigits(NatToString(n)) == n
  {
    if n >= 10 {
      NatToStringRoundTrip(n / 10);
      var s := NatToString(n);
      var p := NatToString(n / 10);
      assert s == p + [DigitChar(n % 10)];
      assert s[..|s| - 1] == p;
      assert s[0] == p[0];
    }
  }

  /** Distinct numbers have distinct numerals. */
  lemma NatToStringInjective(a: nat, b: nat)
    requires NatToString(a) == NatToString(b)
    ensures a == b
  {
    NatToStringRoundTrip(a);
    NatToStringRoundTrip(b);
  }

  /** A numeral contains no character other than a digit, in particular no
      separator such as '-' or ' '. */
  lemma NatToStringHasNo(n: nat, c: char)
    requires !IsDigit(c)
    ensures c !in NatToString(n)
  {
    NatToStringRoundTrip(n);
  }

  /** The decimal rendering of a possibly negative integer. */
  function IntToString(i: int): (s: string)
    ensures |s| > 0 && (s[0] == '-' <==> i < 0)
    ensures AllDigits(if i < 0 then s[1..] else s)
    ensures ParseDigits(if i < 0 then s[1..] else s) == (if i < 0 then -i else i)
  {
    NatToStringRoundTrip(if i < 0 then -i else i);
    if i < 0 then
      assert ("-" + NatToString(-i))[1..] == NatToString(-i);
      "-" + NatToString(-i)
    else NatToString(i)
  }

  lemma IntToStringInjective(a: int, b: int)
    requires IntToString(a) == IntToString(b)
    ensures a == b
  {
    NatToStringRoundTrip(if a < 0 then -a else a);
    NatToStringRoundTrip(if b < 0 then -b else b);
    if a < 0 && b < 0 {
      assert NatToString(-a) == IntToString(a)[1..];
      NatToStringInjective(-a, -b);
    } else if a >= 0 && b >= 0 {
      NatToStringInjective(a, b);
    }
  }

  /** Splitting at the first occurrence of a separator: when neither head
      contains `sep`, equal joins have equal heads and equal tails. */
  lemma {:induction false} SplitAtSeparator(a: string, b: string, c: string, d: string, sep: char)
    requires sep !in a && sep !in c
    requires a + [sep] + b == c + [sep] + d
    ensures a == c && b == d
  {
    var x := a + [sep] + b;
    assert x[|a|] == sep && x[|c|] == sep;
    assert a == x[..|a|] == c;
    assert b == x[|a| + 1..] == d;
  }

  /** Splitting at the last occurrence of a separator: when neither tail
      contains `sep`, equal joins have equal heads and equal tails. */
  lemma {:induction false} SplitAtLastSeparator(a: string, b: string, c: string, d: string, sep: char)
    requires sep !in b && sep !in d
    requires a + [sep] + b == c + [sep] + d
    ensures a == c && b == d
  {
    var x := a + [sep] + b;
    assert x[|a|] == sep && x[|c|] == sep;
    assert b == x[|a| + 1..] && d == x[|c| + 1..];
    assert |a| == |c|;
    assert a == x[..|a|] == c;
  }

  /** A prefix followed, in what remains, by a second prefix makes their join a prefix. */
  lemma StartsWithJoin(s: string, a: string, b: string)
    requires StartsWith(s, a) && StartsWith(s[|a|..], b)
    ensures StartsWith(s, a + b)
  {
    assert s[..|a| + |b|] == s[..|a|] + s[|a|..][..|b|];
  }

  /** Joins with equal heads and equal tails have equal middles. */
  lemma CancelHeadAndTail(h: string, m1: string, m2: string, t: string)
    requires h + m1 + t == h + m2 + t
    ensures m1 == m2
  {
    var x := h + m1 + t;
    assert |m1| == |m2|;
    assert m1 == x[|h|..|h| + |m1|];
  }
}
