/**
 * The JavaScript string conversions the game relies on: `Number.prototype.toString`
 * on integers, `Array.prototype.join(',')` (what `toString` does on an array), and the
 * fact that each of them can be read back, so that comparing the strings compares
 * the values.
 */
module JsText {

  predicate IsDigit(c: char)
  {
    '0' <= c <= '9'
  }

  function DigitChar(d: nat): (c: char)
    requires d < 10
    ensures IsDigit(c) && c as int - '0' as int == d
  {
    ('0' as int + d) as char
  }

  /** The decimal numeral of a non-negative integer, without leading zeros. */
  function Dec(n: nat): (s: string)
    ensures |s| >= 1 && (n >= 10 <==> |s| >= 2) && IsDigit(s[0])
  {
    if n < 10 then [DigitChar(n)] else Dec(n / 10) + [DigitChar(n % 10)]
  }

  /** A numeral is made of digits only. */
  lemma {:induction false} DecDigits(n: nat)
    ensures forall k :: 0 <= k < |Dec(n)| ==> IsDigit(Dec(n)[k])
  {
    if n >= 10 {
      DecDigits(n / 10);
    }
  }

  /** The numeral of an integer: a minus sign before the numeral of a negative one. */
  function IntStr(n: int): (s: string)
    ensures |s| >= 1 && (s[0] == '-' <==> n < 0)
  {
    if n < 0 then "-" + Dec(-n) else Dec(n)
  }

  /** The numeral of an integer holds no comma and no brace. */
  lemma IntStrPlain(n: int)
    ensures forall k :: 0 <= k < |IntStr(n)| ==> IntStr(n)[k] !in {',', '{', '}'}
  {
    if n < 0 {
      DecDigits(-n);
    } else {
      DecDigits(n);
    }
  }

  /** Distinct naturals have distinct numerals. */
  lemma {:induction false} DecInjective(a: nat, b: nat)
    requires Dec(a) == Dec(b)
    ensures a == b
  {
    if a >= 10 && b >= 10 {
      var s := Dec(a);
      assert s == Dec(a / 10) + [DigitChar(a % 10)];
      assert s == Dec(b / 10) + [DigitChar(b % 10)];
      assert Dec(a / 10) == s[..|s| - 1] == Dec(b / 10);
      DecInjective(a / 10, b / 10);
    }
  }

  /** Distinct integers have distinct numerals. */
  lemma IntStrInjective(a: int, b: int)
    requires IntStr(a) == IntStr(b)
    ensures a == b
  {
    if a < 0 && b < 0 {
      assert Dec(-a) == IntStr(a)[1..] == Dec(-b);
      DecInjective(-a, -b);
    } else if a >= 0 && b >= 0 {
      DecInjective(a, b);
    }
  }

  predicate CommaFree(s: string)
  {
    forall k :: 0 <= k < |s| ==> s[k] != ','
  }

  /** The text before the first comma (all of `s` if it has none). */
  function UpToComma(s: string): (r: string)
    ensures |r| <= |s| && r == s[..|r|] && CommaFree(r)
    ensures |r| < |s| ==> s[|r|] == ','
  {
    if s == [] || s[0] == ',' then [] else [s[0]] + UpToComma(s[1..])
  }

  /** A comma-free field followed by a comma or by nothing is read back intact. */
  lemma {:induction false} UpToCommaField(a: string, p: string)
    requires CommaFree(a)
    requires p == [] || p[0] == ','
    ensures UpToComma(a + p) == a
  {
    if a != [] {
      assert (a + p)[1..] == a[1..] + p;
      UpToCommaField(a[1..], p);
    }
  }

  /** Two fields that end where a comma (or the text) begins are equal when the texts are. */
  lemma CommaSplit(a: string, p: string, b: string, q: string)
    requires CommaFree(a) && CommaFree(b)
    requires (p == [] || p[0] == ',') && (q == [] || q[0] == ',')
    requires a + p == b + q
    ensures a == b && p == q
  {
    UpToCommaField(a, p);
    UpToCommaField(b, q);
    assert p == (a + p)[|a|..];
    assert q == (b + q)[|b|..];
  }

  lemma DecCommaFree(n: nat)
    ensures CommaFree(Dec(n))
  {
    DecDigits(n);
  }

  /**
   * `xs.join(',')`, which is also `xs.toString()`: empty exactly for the empty list,
   * and otherwise the text starts with the numeral of the first entry.
   */
  function Join(xs: seq<nat>): (r: string)
    ensures |xs| == 0 <==> r == ""
    ensures |xs| > 0 ==> Dec(xs[0]) <= r
  {
    if |xs| == 0 then ""
    else if |xs| == 1 then Dec(xs[0])
    else Dec(xs[0]) + "," + Join(xs[1..])
  }

  /** Two lists of naturals with the same comma-joined text are the same list. */
  lemma {:induction false} JoinInjective(xs: seq<nat>, ys: seq<nat>)
    requires Join(xs) == Join(ys)
    ensures xs == ys
  {
    if |xs| > 0 && |ys| > 0 {
      var p := if |xs| == 1 then "" else "," + Join(xs[1..]);
      var q := if |ys| == 1 then "" else "," + Join(ys[1..]);
      assert Join(xs) == Dec(xs[0]) + p;
      assert Join(ys) == Dec(ys[0]) + q;
      DecCommaFree(xs[0]);
      DecCommaFree(ys[0]);
      CommaSplit(Dec(xs[0]), p, Dec(ys[0]), q);
      DecInjective(xs[0], ys[0]);
      if |xs| > 1 && |ys| > 1 {
        assert Join(xs[1..]) == p[1..] == q[1..] == Join(ys[1..]);
        JoinInjective(xs[1..], ys[1..]);
        assert xs == [xs[0]] + xs[1..] && ys == [ys[0]] + ys[1..];
      }
    }
  }
}
