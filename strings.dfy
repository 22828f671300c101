/** String helpers that stand for Python built-ins used by the core:
    `str(n)` on a non-negative int and `''.join(parts)`. */
module Strings {

  /** The decimal digit character for 0 <= d < 10. */
  function Digit(d: nat): (c: char)
    requires d < 10
    ensures '0' <= c <= '9'
  {
    (48 + d) as char
  }

  predicate IsDigit(c: char) {
    '0' <= c <= '9'
  }

  /** Python's `str(n)` for n >= 0: the decimal numeral, most significant digit first. */
  function NatToString(n: nat): (s: string)
    ensures |s| >= 1
    ensures forall i :: 0 <= i < |s| ==> IsDigit(s[i])
    ensures n < 10 <==> |s| == 1
  {
    if n < 10 then [Digit(n)] else NatToString(n / 10) + [Digit(n % 10)]
  }

  /** Distinct numbers have distinct numerals. */
  lemma {:induction false} NatToStringInjective(a: nat, b: nat)
    requires NatToString(a) == NatToString(b)
    ensures a == b
  {
    var sa, sb := NatToString(a), NatToString(b);
    if a < 10 || b < 10 {
      assert a < 10 && b < 10;
      assert sa[0] == Digit(a) && sb[0] == Digit(b);
    } else {
      assert sa[..|sa| - 1] == NatToString(a / 10);
      assert sb[..|sb| - 1] == NatToString(b / 10);
      NatToStringInjective(a / 10, b / 10);
      assert sa[|sa| - 1] == Digit(a % 10) && sb[|sb| - 1] == Digit(b % 10);
    }
  }

  /** A run of digits between a fixed prefix and a non-digit is determined by
      the whole string. */
  lemma DigitRunDetermined(p: string, s: string, r: string, t: string, u: string)
    requires p + s + r == p + t + u
    requires forall i :: 0 <= i < |s| ==> IsDigit(s[i])
    requires forall i :: 0 <= i < |t| ==> IsDigit(t[i])
    requires |r| > 0 && !IsDigit(r[0]) && |u| > 0 && !IsDigit(u[0])
    ensures s == t
  {
    var w := p + s + r;
    assert w == p + t + u;
    assert w[|p| + |s|] == r[0];
    assert w[|p| + |t|] == u[0];
    assert s == w[|p|..|p| + |s|];
    assert t == w[|p|..|p| + |t|];
  }

  /** A number written between a fixed prefix and a text that opens with a
      non-digit can be read back from the whole string. */
  lemma NumberReadBack(p: string, a: nat, r: string, b: nat, u: string)
    requires p + NatToString(a) + r == p + NatToString(b) + u
    requires |r| > 0 && !IsDigit(r[0]) && |u| > 0 && !IsDigit(u[0])
    ensures a == b
  {
    DigitRunDetermined(p, NatToString(a), r, NatToString(b), u);
    NatToStringInjective(a, b);
  }

  /** `''.join(parts)`: the parts laid end to end, in order. */
  function Concat(parts: seq<string>): string
  {
    if parts == [] then "" else parts[0] + Concat(parts[1..])
  }
}
