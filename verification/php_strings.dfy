/**
 * The PHP string primitives the page controller relies on: `explode` and
 * `implode` on the ':' delimiter, the `(int)` cast of a string, and the
 * truthiness of a string. A decimal rendering of integers is defined beside
 * the cast as its inverse.
 */
module PhpStrings {

  /** The delimiter between the element id and the sub-key of an item key. */
  const Colon: char := ':'

  // ---------------------------------------------------------------------------
  // explode / implode
  // ---------------------------------------------------------------------------

  /**
   * `explode(':', s)`: the maximal colon-free pieces of `s`, in order. The
   * empty string gives one empty piece, and every colon starts a new piece.
   */
  function Explode(s: string): (parts: seq<string>)
    ensures |parts| >= 1
    ensures forall i :: 0 <= i < |parts| ==> Colon !in parts[i]
  {
    if s == [] then [""]
    else
      var rest := Explode(s[1..]);
      if s[0] == Colon then [""] + rest
      else [[s[0]] + rest[0]] + rest[1..]
  }

  /**
   * `implode(':', parts)`: the pieces joined with one colon between
   * neighbours. Colon-free pieces are exactly what exploding the result gives
   * back.
   */
  function Implode(parts: seq<string>): (s: string)
    ensures |parts| >= 1 && (forall i :: 0 <= i < |parts| ==> Colon !in parts[i]) ==>
      Explode(s) == parts
  {
    if |parts| == 0 then ""
    else if |parts| == 1 then
      assert Colon !in parts[0] ==> Explode(parts[0]) == [parts[0]] by {
        if Colon !in parts[0] { ExplodeNoColon(parts[0]); }
      }
      parts[0]
    else
      var tail := Implode(parts[1..]);
      assert Colon !in parts[0] ==> Explode(parts[0] + [Colon] + tail) == [parts[0]] + Explode(tail) by {
        if Colon !in parts[0] { ExplodeAfterSegment(parts[0], tail); }
      }
      assert [parts[0]] + parts[1..] == parts;
      parts[0] + [Colon] + tail
  }

  /** Joining the pieces of `s` gives back `s`: nothing is lost by `explode`. */
  lemma {:induction false} ImplodeExplode(s: string)
    ensures Implode(Explode(s)) == s
  {
    if s != [] {
      var rest := Explode(s[1..]);
      ImplodeExplode(s[1..]);
      if s[0] == Colon {
        var parts := [""] + rest;
        assert parts[1..] == rest;
        assert Implode(parts) == "" + [Colon] + Implode(rest);
      } else {
        var parts := [[s[0]] + rest[0]] + rest[1..];
        if |rest| == 1 {
          assert Implode(parts) == [s[0]] + rest[0];
        } else {
          assert parts[1..] == rest[1..];
          assert Implode(parts) == [s[0]] + rest[0] + [Colon] + Implode(rest[1..]);
          assert Implode(rest) == rest[0] + [Colon] + Implode(rest[1..]);
        }
      }
      assert s == [s[0]] + s[1..];
    }
  }

  /** A string without a colon explodes into itself alone. */
  lemma {:induction false} ExplodeNoColon(a: string)
    requires Colon !in a
    ensures Explode(a) == [a]
  {
    if a != [] {
      assert Colon !in a[1..] by {
        forall i | 0 <= i < |a[1..]| ensures a[1..][i] != Colon {
          assert a[1..][i] == a[i + 1];
        }
      }
      ExplodeNoColon(a[1..]);
      assert [a[0]] + a[1..] == a;
    }
  }

  /** A colon-free segment followed by a colon becomes the first piece. */
  lemma {:induction false} ExplodeAfterSegment(a: string, b: string)
    requires Colon !in a
    ensures Explode(a + [Colon] + b) == [a] + Explode(b)
  {
    var s := a + [Colon] + b;
    if a == [] {
      assert s[0] == Colon && s[1..] == b;
    } else {
      assert s[0] == a[0] && s[1..] == a[1..] + [Colon] + b;
      assert Colon !in a[1..] by {
        forall i | 0 <= i < |a[1..]| ensures a[1..][i] != Colon {
          assert a[1..][i] == a[i + 1];
        }
      }
      ExplodeAfterSegment(a[1..], b);
      assert [a[0]] + a[1..] == a;
    }
  }

  // ---------------------------------------------------------------------------
  // Splitting at the first colon, stated without explode
  // ---------------------------------------------------------------------------

  /**
   * The text before the first colon of `s` (all of `s` when it has none): the
   * unique colon-free prefix that is followed by a colon or by the end.
   */
  function BeforeColon(s: string): (h: string)
    ensures |h| <= |s| && h == s[..|h|]
    ensures Colon !in h
    ensures |h| < |s| ==> s[|h|] == Colon
  {
    if s == [] || s[0] == Colon then [] else [s[0]] + BeforeColon(s[1..])
  }

  /** The text after the first colon of `s` (empty when it has none). */
  function AfterColon(s: string): (t: string)
    ensures Colon in s ==> s == BeforeColon(s) + [Colon] + t
    ensures Colon !in s ==> t == "" && BeforeColon(s) == s
  {
    var h := BeforeColon(s);
    if |h| < |s| then s[|h| + 1..] else ""
  }

  /** A colon-free segment followed by a colon is exactly what `BeforeColon` and `AfterColon` split off. */
  lemma SplitSegment(a: string, b: string)
    requires Colon !in a
    ensures BeforeColon(a + [Colon] + b) == a
    ensures AfterColon(a + [Colon] + b) == b
  {
    var s := a + [Colon] + b;
    assert forall i :: 0 <= i < |a| ==> s[i] == a[i];
    assert s[|a|] == Colon;
    assert BeforeColon(s) == a;
  }

  /**
   * Taking the first piece of `explode(':', s)` and re-joining the others with
   * ':' is the same as splitting `s` at its first colon.
   */
  lemma SplitAgrees(s: string)
    ensures Explode(s)[0] == BeforeColon(s)
    ensures Implode(Explode(s)[1..]) == AfterColon(s)
  {
    if Colon in s {
      var h, t := BeforeColon(s), AfterColon(s);
      ExplodeAfterSegment(h, t);
      assert Explode(s)[1..] == Explode(t);
      ImplodeExplode(t);
    } else {
      ExplodeNoColon(s);
    }
  }

  // ---------------------------------------------------------------------------
  // Truthiness
  // ---------------------------------------------------------------------------

  /** A PHP string is falsy exactly when it is "" or "0". */
  predicate IsFalsy(s: string)
  {
    s == "" || s == "0"
  }

  // ---------------------------------------------------------------------------
  // The (int) cast and decimal rendering
  // ---------------------------------------------------------------------------

  predicate IsDigit(c: char)
  {
    '0' <= c <= '9'
  }

  /** The whitespace PHP skips before a number: space, \t, \n, \r, \v and \f. */
  predicate IsSpace(c: char)
  {
    c == ' ' || c == '\t' || c == '\n' || c == '\r' || c as int == 11 || c as int == 12
  }

  predicate AllDigits(d: string)
  {
    forall i :: 0 <= i < |d| ==> IsDigit(d[i])
  }

  /** `s` without its leading whitespace. */
  function SkipSpace(s: string): (t: string)
    ensures t != [] ==> !IsSpace(t[0])
  {
    if s != [] && IsSpace(s[0]) then SkipSpace(s[1..]) else s
  }

  /** Skipping whitespace leaves a suffix of the string. */
  lemma {:induction false} SkipSpaceIsSuffix(s: string)
    ensures |SkipSpace(s)| <= |s| && SkipSpace(s) == s[|s| - |SkipSpace(s)|..]
  {
    if s != [] && IsSpace(s[0]) {
      SkipSpaceIsSuffix(s[1..]);
    }
  }

  /** The longest prefix of `s` made of decimal digits. */
  function DigitPrefix(s: string): (d: string)
    ensures |d| <= |s| && d == s[..|d|]
    ensures AllDigits(d)
    ensures |d| < |s| ==> !IsDigit(s[|d|])
  {
    if s != [] && IsDigit(s[0]) then [s[0]] + DigitPrefix(s[1..]) else []
  }

  function DigitValue(c: char): nat
    requires IsDigit(c)
  {
    c as int - '0' as int
  }

  /** The value of a string of decimal digits, most significant first; 0 for "". */
  function DigitsValue(d: string): nat
    requires AllDigits(d)
  {
    if d == [] then 0 else 10 * DigitsValue(d[..|d| - 1]) + DigitValue(d[|d| - 1])
  }

  /** `t` starts with a digit, or with a sign followed by a digit. */
  predicate NumeralStart(t: string)
  {
    t != [] && (IsDigit(t[0]) || ((t[0] == '-' || t[0] == '+') && |t| >= 2 && IsDigit(t[1])))
  }

  /**
   * PHP's `(int)` cast of a string: leading whitespace is skipped, then the
   * number is read from what follows. A nonzero result needs a numeral right
   * after the whitespace, so "x5" and "#3" cast to 0, and a digit in `s`.
   */
  function IntCast(s: string): (n: int)
    ensures n != 0 ==> NumeralStart(SkipSpace(s))
    ensures n != 0 ==> exists i :: 0 <= i < |s| && IsDigit(s[i])
  {
    SkipSpaceIsSuffix(s);
    var t := SkipSpace(s);
    var n := SignedPrefixValue(t);
    assert n != 0 ==> exists i :: 0 <= i < |s| && IsDigit(s[i]) by {
      if n != 0 {
        var i := if IsDigit(t[0]) then 0 else 1;
        assert s[|s| - |t| + i] == t[i];
      }
    }
    n
  }

  /**
   * The number at the start of `t`: an optional sign and the decimal digits
   * that follow it, negated after '-'; 0 when `t` does not start with a numeral.
   */
  function SignedPrefixValue(t: string): (n: int)
    ensures n != 0 ==> NumeralStart(t)
  {
    var signed := t != [] && (t[0] == '-' || t[0] == '+');
    var digits := DigitPrefix(if signed then t[1..] else t);
    assert digits != [] ==> IsDigit(t[if signed then 1 else 0]);
    if signed && t[0] == '-' then -(DigitsValue(digits) as int) else DigitsValue(digits)
  }

  function DigitChar(n: nat): (c: char)
    requires n < 10
    ensures IsDigit(c) && DigitValue(c) == n
  {
    ('0' as int + n) as char
  }

  /** The decimal rendering of a natural number, without leading zeros. */
  function NatToString(n: nat): (s: string)
    ensures |s| >= 1 && AllDigits(s)
  {
    if n < 10 then [DigitChar(n)] else NatToString(n / 10) + [DigitChar(n % 10)]
  }

  /** The decimal rendering of an integer, with a '-' in front of a negative one. */
  function IntToString(n: int): (s: string)
    ensures |s| >= 1 && Colon !in s
    ensures n < 0 <==> s[0] == '-'
  {
    if n < 0 then "-" + NatToString(-n) else NatToString(n)
  }

  lemma {:induction false} DigitsValueOfNatToString(n: nat)
    ensures DigitsValue(NatToString(n)) == n
  {
    if n >= 10 {
      DigitsValueOfNatToString(n / 10);
      var s := NatToString(n);
      assert s[..|s| - 1] == NatToString(n / 10);
    }
  }

  /** Whitespace in front of a string that does not start with whitespace is skipped entirely. */
  lemma {:induction false} SkipSpaceOver(w: string, x: string)
    requires forall i :: 0 <= i < |w| ==> IsSpace(w[i])
    requires x != [] && !IsSpace(x[0])
    ensures SkipSpace(w + x) == x
  {
    if w == [] {
      assert w + x == x;
    } else {
      assert (w + x)[1..] == w[1..] + x;
      SkipSpaceOver(w[1..], x);
    }
  }

  /** The digit run of a digit string followed by a non-digit is that digit string. */
  lemma {:induction false} DigitPrefixOver(d: string, rest: string)
    requires AllDigits(d)
    requires rest == [] || !IsDigit(rest[0])
    ensures DigitPrefix(d + rest) == d
  {
    if d == [] {
      assert d + rest == rest;
    } else {
      assert (d + rest)[1..] == d[1..] + rest;
      DigitPrefixOver(d[1..], rest);
      assert [d[0]] + d[1..] == d;
    }
  }

  /**
   * The `(int)` cast of whitespace `w`, an optional sign, a digit run `d` and a
   * rest that does not start with a digit is the value of `d`, negated after
   * '-': so "05" casts to 5, "+5" to 5 and "5abc" to 5.
   */
  lemma CastOfNumeral(w: string, sign: string, d: string, rest: string)
    requires forall i :: 0 <= i < |w| ==> IsSpace(w[i])
    requires sign == "" || sign == "-" || sign == "+"
    requires AllDigits(d) && (sign != "" || d != [])
    requires rest == [] || !IsDigit(rest[0])
    ensures IntCast(w + sign + d + rest) == if sign == "-" then -(DigitsValue(d) as int) else DigitsValue(d)
  {
    var x := sign + d + rest;
    assert w + sign + d + rest == w + x;
    SkipSpaceOver(w, x);
    SignedNumeral(sign, d, rest);
  }

  /**
   * The number at the start of an optional sign (at most one '-' or '+'), a
   * digit run and a non-digit rest is the run's value, negated after '-'.
   */
  lemma SignedNumeral(sign: string, d: string, rest: string)
    requires |sign| <= 1 && (sign != [] ==> sign[0] == '-' || sign[0] == '+')
    requires AllDigits(d) && (sign != [] || d != [])
    requires rest == [] || !IsDigit(rest[0])
    ensures SignedPrefixValue(sign + d + rest) ==
      if sign != [] && sign[0] == '-' then -(DigitsValue(d) as int) else DigitsValue(d)
  {
    DigitPrefixOver(d, rest);
    if sign == [] {
      assert sign + d + rest == d + rest;
      UnsignedPrefix(d + rest);
    } else {
      assert sign + d + rest == [sign[0]] + (d + rest);
      SignPrefix(sign[0], d + rest);
    }
  }

  /** A string that starts with a digit is read from its first character on. */
  lemma UnsignedPrefix(t: string)
    requires t != [] && IsDigit(t[0])
    ensures SignedPrefixValue(t) == DigitsValue(DigitPrefix(t))
  {
  }

  /** After a sign, the digits that follow are read and negated after '-'. */
  lemma SignPrefix(c: char, x: string)
    requires c == '-' || c == '+'
    ensures SignedPrefixValue([c] + x) == if c == '-' then -(DigitsValue(DigitPrefix(x)) as int) else DigitsValue(DigitPrefix(x))
  {
    assert ([c] + x)[1..] == x;
  }

  /**
   * Whitespace followed by a character that is neither a digit nor a sign
   * casts to 0, whatever digits come later: "x5", "id42" and " #3" give 0.
   */
  lemma CastOfNonNumeral(w: string, rest: string)
    requires forall i :: 0 <= i < |w| ==> IsSpace(w[i])
    requires rest != [] && !IsSpace(rest[0]) && !IsDigit(rest[0]) && rest[0] != '-' && rest[0] != '+'
    ensures IntCast(w + rest) == 0
  {
    SkipSpaceOver(w, rest);
  }

  /** The `(int)` cast reads back every integer from its decimal rendering. */
  lemma CastRoundTrip(n: int)
    ensures IntCast(IntToString(n)) == n
  {
    var m: nat := if n < 0 then -n else n;
    var d := NatToString(m);
    var sign := if n < 0 then "-" else "";
    assert IntToString(n) == [] + sign + d + [];
    CastOfNumeral([], sign, d, []);
    DigitsValueOfNatToString(m);
  }
}
