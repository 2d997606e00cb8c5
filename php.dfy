/**
 * The PHP and WordPress primitives the submission-limit frontend relies on,
 * stated on strings (`seq<char>`): `explode` on a one-character separator,
 * integer rendering (`%d` and string interpolation), WordPress `absint`,
 * PHP `empty()` on a string and the SQL pattern `LIKE '%needle%'` with an
 * escaped needle.
 */
module PhpBuiltins {

  /* ---------------------------------------------------------------------- */
  /* explode / implode                                                        */
  /* ---------------------------------------------------------------------- */

  /** `explode(sep, s)`: the pieces of `s` between occurrences of `sep`. */
  function Explode(sep: char, s: string): (parts: seq<string>)
    ensures |parts| >= 1
    ensures forall i :: 0 <= i < |parts| ==> sep !in parts[i]
    decreases |s|
  {
    if s == [] then [[]]
    else
      var rest := Explode(sep, s[1..]);
      if s[0] == sep then [[]] + rest
      else [[s[0]] + rest[0]] + rest[1..]
  }

  /** `implode(sep, parts)`: the pieces joined with `sep` between them. */
  function Implode(sep: char, parts: seq<string>): string
    requires |parts| >= 1
    decreases |parts|
  {
    if |parts| == 1 then parts[0] else parts[0] + [sep] + Implode(sep, parts[1..])
  }

  /** Exploding loses nothing: joining the pieces gives back the string. */
  lemma {:induction false} ImplodeExplode(sep: char, s: string)
    ensures Implode(sep, Explode(sep, s)) == s
    decreases |s|
  {
    if s != [] {
      var rest := Explode(sep, s[1..]);
      ImplodeExplode(sep, s[1..]);
      if s[0] == sep {
        assert ([[]] + rest)[1..] == rest;
        assert s == [sep] + s[1..];
      } else if |rest| == 1 {
        assert s == [s[0]] + s[1..];
      } else {
        var parts := [[s[0]] + rest[0]] + rest[1..];
        assert parts[1..] == rest[1..];
        assert Implode(sep, rest) == rest[0] + [sep] + Implode(sep, rest[1..]);
        assert s == [s[0]] + s[1..];
      }
    }
  }

  /** `explode` gives one piece more than there are separators in `s`. */
  lemma {:induction false} ExplodeCount(sep: char, s: string)
    ensures |Explode(sep, s)| == multiset(s)[sep] + 1
    decreases |s|
  {
    if s != [] {
      ExplodeCount(sep, s[1..]);
      assert s == [s[0]] + s[1..];
      assert multiset(s) == multiset{s[0]} + multiset(s[1..]);
    }
  }

  /** A string without the separator explodes into itself alone. */
  lemma {:induction false} ExplodeFree(sep: char, s: string)
    requires sep !in s
    ensures Explode(sep, s) == [s]
    decreases |s|
  {
    if s != [] {
      ExplodeFree(sep, s[1..]);
      assert s == [s[0]] + s[1..];
    }
  }

  /** A separator-free head followed by a separator is split off as the first piece. */
  lemma {:induction false} ExplodeHead(sep: char, a: string, b: string)
    requires sep !in a
    ensures Explode(sep, a + [sep] + b) == [a] + Explode(sep, b)
    decreases |a|
  {
    if a == [] {
      assert a + [sep] + b == [sep] + b;
      assert ([sep] + b)[1..] == b;
    } else {
      var s := a + [sep] + b;
      assert s[1..] == a[1..] + [sep] + b;
      ExplodeHead(sep, a[1..], b);
      assert a == [a[0]] + a[1..];
    }
  }

  /* ---------------------------------------------------------------------- */
  /* decimal digits: sprintf('%d', n), "{$n}", (int) and absint               */
  /* ---------------------------------------------------------------------- */

  predicate IsDigit(c: char) {
    '0' <= c <= '9'
  }

  predicate IsDigits(s: string) {
    forall i :: 0 <= i < |s| ==> IsDigit(s[i])
  }

  function DigitChar(d: nat): (c: char)
    requires d < 10
    ensures IsDigit(c) && c as int - '0' as int == d
  {
    ('0' as int + d) as char
  }

  /** The decimal text PHP produces for a non-negative integer. */
  function Decimal(n: nat): (s: string)
    ensures |s| >= 1 && IsDigits(s)
    ensures s[0] == '0' ==> n == 0
    decreases n
  {
    if n < 10 then [DigitChar(n)] else Decimal(n / 10) + [DigitChar(n % 10)]
  }

  /** The value of a string of decimal digits. */
  function DigitsValue(s: string): nat
    requires IsDigits(s)
    decreases |s|
  {
    if s == [] then 0 else 10 * DigitsValue(s[..|s| - 1]) + (s[|s| - 1] as int - '0' as int)
  }

  /** The length of the longest run of decimal digits at the start of `s`. */
  function DigitRun(s: string): (k: nat)
    ensures k <= |s| && IsDigits(s[..k])
    ensures k < |s| ==> !IsDigit(s[k])
    decreases |s|
  {
    if s == [] || !IsDigit(s[0]) then 0
    else
      var k := DigitRun(s[1..]);
      assert s[..1 + k] == [s[0]] + s[1..][..k];
      1 + k
  }

  /** The text after a leading sign, if there is one. */
  function Unsigned(s: string): string {
    if |s| > 0 && (s[0] == '-' || s[0] == '+') then s[1..] else s
  }

  /**
   * WordPress `absint` of a string: PHP's integer cast reads an optional sign
   * and the longest run of decimal digits after it (none reads as 0), and the
   * absolute value drops the sign.
   */
  function AbsInt(s: string): nat {
    var t := Unsigned(s);
    DigitsValue(t[..DigitRun(t)])
  }

  /**
   * The integer texts PHP's `is_numeric` accepts: an optional sign followed
   * by one or more digits and nothing else.
   */
  predicate IsIntegerText(s: string) {
    var t := Unsigned(s);
    |t| > 0 && IsDigits(t)
  }

  /** `absint` of an integer. */
  function Abs(i: int): nat {
    if i < 0 then -i else i
  }

  /** The decimal text PHP produces for any integer: a minus sign before a negative one. */
  function IntText(i: int): string {
    if i < 0 then "-" + Decimal(-i) else Decimal(i)
  }

  /** Reading back the decimal text of `n` gives `n`. */
  lemma {:induction false} DecimalValue(n: nat)
    ensures DigitsValue(Decimal(n)) == n
    decreases n
  {
    if n >= 10 {
      var s := Decimal(n);
      DecimalValue(n / 10);
      assert s[..|s| - 1] == Decimal(n / 10);
    }
  }

  /** A string made only of digits is one run of digits. */
  lemma DigitRunAll(s: string)
    requires IsDigits(s)
    ensures DigitRun(s) == |s|
  {
  }

  /** `absint` inverts the decimal rendering. */
  lemma AbsIntDecimal(n: nat)
    ensures AbsInt(Decimal(n)) == n
  {
    var s := Decimal(n);
    DigitRunAll(s);
    assert s[..|s|] == s;
    DecimalValue(n);
  }

  /** Different numbers are rendered as different texts. */
  lemma DecimalInjective(a: nat, b: nat)
    ensures Decimal(a) == Decimal(b) ==> a == b
  {
    AbsIntDecimal(a);
    AbsIntDecimal(b);
  }

  /** The text of any integer is an integer text, and `absint` reads its absolute value back. */
  lemma AbsIntIntText(i: int)
    ensures IsIntegerText(IntText(i))
    ensures AbsInt(IntText(i)) == Abs(i)
  {
    var d := Decimal(Abs(i));
    if i < 0 {
      assert ("-" + d)[1..] == d;
    }
    AbsIntDecimal(Abs(i));
  }

  /** Different integers, negative ones included, are rendered as different texts. */
  lemma IntTextInjective(a: int, b: int)
    ensures IntText(a) == IntText(b) ==> a == b
  {
    if IntText(a) == IntText(b) {
      AbsIntIntText(a);
      AbsIntIntText(b);
      assert (a < 0) == (IntText(a)[0] == '-');
      assert (b < 0) == (IntText(b)[0] == '-');
    }
  }

  /* ---------------------------------------------------------------------- */
  /* empty() and LIKE '%needle%'                                               */
  /* ---------------------------------------------------------------------- */

  /** PHP `empty()` on a string: the empty string and "0" are empty. */
  predicate IsEmptyValue(s: string) {
    s == "" || s == "0"
  }

  /** `hay LIKE '%needle%'` with every wildcard in `needle` escaped: `needle` occurs in `hay`. */
  predicate Contains(hay: string, needle: string) {
    exists i :: 0 <= i <= |hay| - |needle| && OccursAt(hay, needle, i)
  }

  predicate OccursAt(hay: string, needle: string, i: int)
    requires 0 <= i <= |hay| - |needle|
  {
    hay[i..i + |needle|] == needle
  }
}
