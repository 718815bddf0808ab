/** The string formatting the graph code relies on: Python's `str` of an
    integer (as used inside f-strings) and `str.upper`, restricted to ASCII. */
module Names {

  predicate IsDigit(ch: char) {
    '0' <= ch <= '9'
  }

  /** No character of `s` is an underscore. */
  predicate NoUnderscore(s: string) {
    forall i | 0 <= i < |s| :: s[i] != '_'
  }

  function Digit(d: nat): (ch: char)
    requires d < 10
    ensures IsDigit(ch)
  {
    (48 + d) as char
  }

  /** Decimal form of a natural number, most significant digit first. */
  function NatStr(n: nat): (s: string)
    ensures 1 <= |s|
    ensures n < 10 <==> |s| == 1
    ensures forall i | 0 <= i < |s| :: IsDigit(s[i])
    decreases n
  {
    if n < 10 then [Digit(n)] else NatStr(n / 10) + [Digit(n % 10)]
  }

  /** Decimal form of an integer, with a leading minus sign when negative. */
  function IntStr(x: int): string {
    if x < 0 then "-" + NatStr(-x) else NatStr(x)
  }

  lemma DigitsHaveNoUnderscore(n: nat)
    ensures NoUnderscore(NatStr(n))
  {
  }

  /** Distinct numbers print differently. */
  lemma {:induction false} NatStrInjective(a: nat, b: nat)
    requires NatStr(a) == NatStr(b)
    ensures a == b
    decreases a
  {
    var s := NatStr(a);
    if a < 10 {
      assert Digit(a) == s[0] == Digit(b);
    } else {
      assert 10 <= b;
      assert NatStr(a / 10) == s[..|s| - 1] == NatStr(b / 10);
      NatStrInjective(a / 10, b / 10);
      assert Digit(a % 10) == s[|s| - 1] == Digit(b % 10);
    }
  }

  /** Splitting at the first underscore is unambiguous when the left part
      has none: `a + "_" + b` determines `a` and `b`. */
  lemma SplitAtUnderscore(a: string, b: string, c: string, d: string)
    requires NoUnderscore(a) && NoUnderscore(c)
    requires a + "_" + b == c + "_" + d
    ensures a == c && b == d
  {
    var x := a + "_" + b;
    if |a| < |c| {
      UnderscoreFirstAt(a, b, c, d);
    } else if |c| < |a| {
      UnderscoreFirstAt(c, d, a, b);
    }
    assert a == x[..|a|] == c;
    assert b == x[|a| + 1..] == d;
  }

  /** An underscore-free prefix longer than `a` puts a non-underscore where
      `a + "_" + b` has its separator. */
  lemma UnderscoreFirstAt(a: string, b: string, c: string, d: string)
    requires NoUnderscore(c) && |a| < |c|
    ensures a + "_" + b != c + "_" + d
  {
    assert (a + "_" + b)[|a|] == '_';
    assert (c + "_" + d)[|a|] == c[|a|];
  }

  /** Two underscore-separated pairs of numbers print equally only when the
      pairs are equal. */
  lemma NumberPairInjective(r: nat, c: nat, r': nat, c': nat)
    requires NatStr(r) + "_" + NatStr(c) == NatStr(r') + "_" + NatStr(c')
    ensures r == r' && c == c'
  {
    DigitsHaveNoUnderscore(r);
    DigitsHaveNoUnderscore(r');
    SplitAtUnderscore(NatStr(r), NatStr(c), NatStr(r'), NatStr(c'));
    NatStrInjective(r, r');
    NatStrInjective(c, c');
  }

  /** Equal strings with equal-length prefixes have equal remainders. */
  lemma DropPrefix(p: string, a: string, b: string)
    requires p + a == p + b
    ensures a == b
  {
    assert a == (p + a)[|p|..];
    assert b == (p + b)[|p|..];
  }

  function UpperChar(ch: char): char {
    if 'a' <= ch <= 'z' then (ch as int - 32) as char else ch
  }

  /** `str.upper` on ASCII text. */
  function Upper(s: string): (r: string)
    ensures |r| == |s|
    ensures forall i | 0 <= i < |s| :: r[i] == UpperChar(s[i])
  {
    if s == [] then [] else [UpperChar(s[0])] + Upper(s[1..])
  }

  /** A type code upper-cases to a given capital letter exactly when it is
      that letter in either case. */
  lemma UpperIsLetter(t: string, letter: char)
    requires 'A' <= letter <= 'Z'
    ensures Upper(t) == [letter] <==> t == [letter] || t == [(letter as int + 32) as char]
  {
    if Upper(t) == [letter] {
      assert UpperChar(t[0]) == letter;
    }
  }
}
