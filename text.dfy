/** The few Python string operations the stall table relies on:
    `strip`/`lstrip`/`rstrip`, `split`/`join` on one separator character,
    `str(int)` and `float(text)` for plain decimal numbers. */
module Text {
  import opened Wrappers

  /** The characters `str.strip()` removes when given no argument
      (the ASCII ones: tab, line feed, vertical tab, form feed, carriage
      return, the four information separators and space). */
  const Whitespace: set<char> :=
    {'\t', '\n', 11 as char, 12 as char, '\r', 28 as char, 29 as char, 30 as char, 31 as char, ' '}

  /** Number of occurrences of `c` in `s`. */
  function CountChar(s: string, c: char): nat
  {
    if s == [] then 0 else (if s[0] == c then 1 else 0) + CountChar(s[1..], c)
  }

  /** `s.lstrip(chars)`. */
  function LStrip(s: string, cs: set<char>): string
  {
    if s != [] && s[0] in cs then LStrip(s[1..], cs) else s
  }

  /** `lstrip` removes the longest prefix made of characters in `cs`. */
  lemma {:induction false} LStripSpec(s: string, cs: set<char>)
    ensures var r := LStrip(s, cs);
      && |r| <= |s| && r == s[|s| - |r|..]
      && (forall i :: 0 <= i < |s| - |r| ==> s[i] in cs)
      && (r != [] ==> r[0] !in cs)
  {
    if s != [] && s[0] in cs {
      var t := s[1..];
      LStripSpec(t, cs);
      var r := LStrip(t, cs);
      assert LStrip(s, cs) == r;
      assert t[|t| - |r|..] == s[|s| - |r|..];
      forall i | 0 <= i < |s| - |r| ensures s[i] in cs {
        if i > 0 {
          assert s[i] == t[i - 1];
        }
      }
    }
  }

  /** `s.rstrip(chars)`. */
  function RStrip(s: string, cs: set<char>): string
  {
    if s != [] && s[|s| - 1] in cs then RStrip(s[..|s| - 1], cs) else s
  }

  /** `rstrip` removes the longest suffix made of characters in `cs`. */
  lemma {:induction false} RStripSpec(s: string, cs: set<char>)
    ensures var r := RStrip(s, cs);
      && |r| <= |s| && r == s[..|r|]
      && (forall i :: |r| <= i < |s| ==> s[i] in cs)
      && (r != [] ==> r[|r| - 1] !in cs)
  {
    if s != [] && s[|s| - 1] in cs {
      var t := s[..|s| - 1];
      RStripSpec(t, cs);
      var r := RStrip(t, cs);
      assert RStrip(s, cs) == r;
      assert t[..|r|] == s[..|r|];
      forall i | |r| <= i < |s| ensures s[i] in cs {
        if i < |s| - 1 {
          assert s[i] == t[i];
        }
      }
    }
  }

  /** `s.strip(chars)`: both ends. */
  function Strip(s: string, cs: set<char>): string
  {
    RStrip(LStrip(s, cs), cs)
  }

  /** `sep.join(parts)` for a one-character separator. */
  function Join(parts: seq<string>, sep: char): string
  {
    if |parts| == 0 then ""
    else if |parts| == 1 then parts[0]
    else parts[0] + [sep] + Join(parts[1..], sep)
  }

  /** `s.split(sep)`: one more part than there are separators. */
  function Split(s: string, sep: char): (r: seq<string>)
    ensures |r| == CountChar(s, sep) + 1
  {
    if s == [] then [""]
    else
      var rest := Split(s[1..], sep);
      if s[0] == sep then [""] + rest
      else [[s[0]] + rest[0]] + rest[1..]
  }

  /** No part of a split contains the separator, and joining the parts
      gives the text back. */
  lemma {:induction false} SplitSpec(s: string, sep: char)
    ensures var r := Split(s, sep);
      && (forall k :: 0 <= k < |r| ==> sep !in r[k])
      && Join(r, sep) == s
  {
    if s != [] {
      var rest := Split(s[1..], sep);
      SplitSpec(s[1..], sep);
      if s[0] == sep {
        assert ([""] + rest)[1..] == rest;
      } else {
        var r := [[s[0]] + rest[0]] + rest[1..];
        assert r[1..] == rest[1..];
        assert s == [s[0]] + s[1..];
      }
    }
  }

  /** `split` undoes `join` when no part contains the separator. */
  lemma {:induction false} SplitJoin(parts: seq<string>, sep: char)
    requires |parts| >= 1
    requires forall k :: 0 <= k < |parts| ==> sep !in parts[k]
    ensures Split(Join(parts, sep), sep) == parts
  {
    if |parts| == 1 {
      SplitNoSeparator(parts[0], sep);
    } else {
      SplitJoin(parts[1..], sep);
      SplitConcat(parts[0], Join(parts[1..], sep), sep);
      SplitNoSeparator(parts[0], sep);
      assert parts == [parts[0]] + parts[1..];
    }
  }

  /** A text without the separator splits into itself. */
  lemma {:induction false} SplitNoSeparator(s: string, sep: char)
    requires sep !in s
    ensures Split(s, sep) == [s]
  {
    if s != [] {
      SplitNoSeparator(s[1..], sep);
      assert s == [s[0]] + s[1..];
    }
  }

  /** Splitting at one separator splits both sides independently. */
  lemma {:induction false} SplitConcat(a: string, b: string, sep: char)
    ensures Split(a + [sep] + b, sep) == Split(a, sep) + Split(b, sep)
  {
    var s := a + [sep] + b;
    if a == [] {
      assert s == [sep] + b && s[1..] == b;
    } else {
      assert s[0] == a[0] && s[1..] == a[1..] + [sep] + b;
      SplitConcat(a[1..], b, sep);
      var A, B := Split(a[1..], sep), Split(b, sep);
      if a[0] != sep {
        assert (A + B)[0] == A[0] && (A + B)[1..] == A[1..] + B;
        assert Split(s, sep) == [[a[0]] + A[0]] + (A[1..] + B);
        assert Split(a, sep) == [[a[0]] + A[0]] + A[1..];
      }
    }
  }

  predicate IsDigit(c: char)
  {
    '0' <= c <= '9'
  }

  predicate AllDigits(s: string)
  {
    forall i :: 0 <= i < |s| ==> IsDigit(s[i])
  }

  function DigitChar(d: nat): (c: char)
    requires d < 10
    ensures IsDigit(c) && c as int - '0' as int == d
  {
    ('0' as int + d) as char
  }

  /** `str(n)` for a natural number: its shortest decimal digits. */
  function NatToString(n: nat): (r: string)
    ensures |r| >= 1
  {
    if n < 10 then [DigitChar(n)] else NatToString(n / 10) + [DigitChar(n % 10)]
  }

  lemma {:induction false} NatToStringDigits(n: nat)
    ensures AllDigits(NatToString(n))
  {
    if n >= 10 {
      NatToStringDigits(n / 10);
    }
  }

  /** `str(i)` for any integer. */
  function IntToString(i: int): (r: string)
    ensures |r| >= 1
  {
    if i < 0 then "-" + NatToString(-i) else NatToString(i)
  }

  /** `str(i)` is digits, with a minus sign in front for a negative `i`. */
  lemma IntToStringChars(i: int)
    ensures var r := IntToString(i);
      forall k :: 0 <= k < |r| ==> IsDigit(r[k]) || (k == 0 && r[k] == '-')
  {
    NatToStringDigits(if i < 0 then -i else i);
  }

  /** The value of a string of decimal digits (0 for the empty string). */
  function DigitsValue(s: string): nat
    requires AllDigits(s)
  {
    if s == [] then 0 else DigitsValue(s[..|s| - 1]) * 10 + (s[|s| - 1] as int - '0' as int)
  }

  lemma {:induction false} DigitsRoundTrip(n: nat)
    ensures AllDigits(NatToString(n)) && DigitsValue(NatToString(n)) == n
  {
    NatToStringDigits(n);
    if n >= 10 {
      NatToStringDigits(n / 10);
      var s := NatToString(n);
      assert s[..|s| - 1] == NatToString(n / 10);
      DigitsRoundTrip(n / 10);
    }
  }

  function Pow10(k: nat): (r: nat)
    ensures r >= 1
  {
    if k == 0 then 1 else 10 * Pow10(k - 1)
  }

  /** `float(s)` restricted to plain decimal notation: surrounding whitespace,
      an optional sign, digits with at most one decimal point, and at least
      one digit.  `None` stands for the `ValueError` `float` raises. */
  function ParseReal(s: string): Option<real>
  {
    var t := Strip(s, Whitespace);
    if t != [] && t[0] == '-' then
      match ParseUnsigned(t[1..])
      case Some(v) => Some(-v)
      case None => None
    else if t != [] && t[0] == '+' then ParseUnsigned(t[1..])
    else ParseUnsigned(t)
  }

  /** Digits with at most one decimal point, at least one digit in all. */
  function ParseUnsigned(body: string): (r: Option<real>)
    ensures r.Some? ==> r.value >= 0.0
  {
    var parts := Split(body, '.');
    var whole := parts[0];
    var frac := if |parts| == 2 then parts[1] else "";
    if |parts| > 2 || |whole| + |frac| == 0 || !AllDigits(whole) || !AllDigits(frac) then None
    else Some(DigitsValue(whole) as real + DigitsValue(frac) as real / Pow10(|frac|) as real)
  }

  /** Stripping leaves a text alone when neither end is to be removed. */
  lemma StripUnchanged(s: string, cs: set<char>)
    requires s != [] && s[0] !in cs && s[|s| - 1] !in cs
    ensures Strip(s, cs) == s
  {
    assert LStrip(s, cs) == s;
  }

  /** A digit string without sign or point reads as its value. */
  lemma {:induction false} ParseUnsignedDigits(digits: string)
    requires |digits| >= 1 && AllDigits(digits)
    ensures ParseUnsigned(digits) == Some(DigitsValue(digits) as real)
  {
    assert '.' !in digits by {
      forall k | 0 <= k < |digits| ensures digits[k] != '.' { assert IsDigit(digits[k]); }
    }
    SplitNoSeparator(digits, '.');
    var parts := Split(digits, '.');
    assert |parts| == 1 && parts[0] == digits;
    assert AllDigits("") && DigitsValue("") == 0 && Pow10(0) == 1;
    assert 0 as real / 1 as real == 0.0;
  }

  /** Digits, a decimal point and digits read as the whole part plus the
      fraction, `float("1.5") == 1.5`. */
  lemma {:induction false} ParseDecimal(whole: string, frac: string)
    requires AllDigits(whole) && AllDigits(frac) && |whole| + |frac| >= 1
    ensures ParseUnsigned(whole + "." + frac) ==
      Some(DigitsValue(whole) as real + DigitsValue(frac) as real / Pow10(|frac|) as real)
  {
    assert '.' !in whole by {
      forall k | 0 <= k < |whole| ensures whole[k] != '.' { assert IsDigit(whole[k]); }
    }
    assert '.' !in frac by {
      forall k | 0 <= k < |frac| ensures frac[k] != '.' { assert IsDigit(frac[k]); }
    }
    var body := whole + "." + frac;
    assert body == whole + ['.'] + frac;
    SplitConcat(whole, frac, '.');
    SplitNoSeparator(whole, '.');
    SplitNoSeparator(frac, '.');
    var parts := Split(body, '.');
    assert parts == [whole, frac];
    assert |parts| == 2 && parts[0] == whole && parts[1] == frac;
  }

  lemma NotWhitespace(c: char)
    requires IsDigit(c) || c == '-'
    ensures c !in Whitespace
  {
  }

  /** `float(str(i)) == i`. */
  lemma ParseIntToString(i: int)
    ensures ParseReal(IntToString(i)) == Some(i as real)
  {
    var s := IntToString(i);
    IntToStringChars(i);
    NotWhitespace(s[0]);
    NotWhitespace(s[|s| - 1]);
    StripUnchanged(s, Whitespace);
    if i < 0 {
      assert s[1..] == NatToString(-i);
      NatToStringDigits(-i);
      ParseUnsignedDigits(NatToString(-i));
      DigitsRoundTrip(-i);
    } else {
      NatToStringDigits(i);
      ParseUnsignedDigits(NatToString(i));
      DigitsRoundTrip(i);
    }
  }
}
