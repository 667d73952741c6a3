/**
  Models of the pieces of Rust's standard library that the programs rely on:
  the UTF-8 byte length of a `str` (`str::len`), decimal formatting of an
  unsigned integer (`{}` in `format!`/`println!`), `str::trim` and
  `str::parse::<u32>`.
*/
module Text {
  import opened Wrappers

  /** Number of bytes the UTF-8 encoding of `c` takes. */
  function Utf8Width(c: char): (w: nat)
    ensures 1 <= w <= 4
    ensures w == 1 <==> (c as int) < 0x80
    ensures w <= 2 <==> (c as int) < 0x800
    ensures w <= 3 <==> (c as int) < 0x1_0000
  {
    if (c as int) < 0x80 then 1
    else if (c as int) < 0x800 then 2
    else if (c as int) < 0x1_0000 then 3
    else 4
  }

  /** `s.len()` for a Rust `str`: its length in UTF-8 bytes, not in characters. */
  function Utf8Len(s: string): nat
  {
    if s == [] then 0 else Utf8Width(s[0]) + Utf8Len(s[1..])
  }

  predicate IsAscii(s: string)
  {
    forall i :: 0 <= i < |s| ==> (s[i] as int) < 0x80
  }

  lemma {:induction false} Utf8LenBounds(s: string)
    ensures |s| <= Utf8Len(s) <= 4 * |s|
    ensures Utf8Len(s) == |s| <==> IsAscii(s)
  {
    if s != [] {
      Utf8LenBounds(s[1..]);
      assert IsAscii(s) <==> (s[0] as int) < 0x80 && IsAscii(s[1..]) by {
        if IsAscii(s[1..]) && (s[0] as int) < 0x80 {
          forall i | 0 <= i < |s| ensures (s[i] as int) < 0x80 {
            if i > 0 { assert s[i] == s[1..][i - 1]; }
          }
        }
        if IsAscii(s) {
          forall i | 0 <= i < |s| - 1 ensures (s[1..][i] as int) < 0x80 {
            assert s[1..][i] == s[i + 1];
          }
        }
      }
    }
  }

  lemma {:induction false} Utf8LenConcat(a: string, b: string)
    ensures Utf8Len(a + b) == Utf8Len(a) + Utf8Len(b)
  {
    if a != [] {
      assert (a + b)[0] == a[0] && (a + b)[1..] == a[1..] + b;
      Utf8LenConcat(a[1..], b);
    } else {
      assert a + b == b;
    }
  }

  // ---------------------------------------------------------------------
  // Prefixes

  /** `starts_with` on a `str` or a byte slice: `s` begins with `prefix`. */
  predicate StartsWith<T(==)>(s: seq<T>, prefix: seq<T>)
  {
    |prefix| <= |s| && s[..|prefix|] == prefix
  }

  // ---------------------------------------------------------------------
  // Decimal digits

  predicate IsDigit(c: char)
  {
    '0' <= c <= '9'
  }

  predicate AllDigits(s: string)
  {
    forall i :: 0 <= i < |s| ==> IsDigit(s[i])
  }

  function DigitChar(d: nat): (c: char)
    requires d < 10
    ensures IsDigit(c) && (c as int) - ('0' as int) == d
  {
    (('0' as int) + d) as char
  }

  function DigitValue(c: char): (d: nat)
    requires IsDigit(c)
    ensures d < 10 && DigitChar(d) == c
  {
    (c as int) - ('0' as int)
  }

  /** The decimal rendering of `n`, as `format!("{}", n)` writes an unsigned integer. */
  function NatToString(n: nat): (s: string)
    ensures 1 <= |s| && AllDigits(s)
    ensures |s| > 1 ==> s[0] != '0'
    ensures IsAscii(s)
  {
    if n < 10 then [DigitChar(n)] else NatToString(n / 10) + [DigitChar(n % 10)]
  }

  /** The value of a string of decimal digits, most significant first (leading zeros allowed). */
  function DigitsValue(s: string): nat
    requires AllDigits(s)
  {
    if s == [] then 0 else 10 * DigitsValue(s[..|s| - 1]) + DigitValue(s[|s| - 1])
  }

  lemma {:induction false} DigitsRoundTrip(n: nat)
    ensures DigitsValue(NatToString(n)) == n
  {
    if n >= 10 {
      var s := NatToString(n);
      assert s[..|s| - 1] == NatToString(n / 10);
      DigitsRoundTrip(n / 10);
    }
  }

  // ---------------------------------------------------------------------
  // str::trim and str::parse::<u32>

  /** `char::is_whitespace`: the characters with the Unicode White_Space property. */
  predicate IsWhitespace(c: char)
  {
    var k := c as int;
    || (0x09 <= k <= 0x0D) || k == 0x20 || k == 0x85 || k == 0xA0 || k == 0x1680
    || (0x2000 <= k <= 0x200A) || k == 0x2028 || k == 0x2029 || k == 0x202F
    || k == 0x205F || k == 0x3000
  }

  /** Number of whitespace characters at the start of `s`. */
  function LeadingWhitespace(s: string): (n: nat)
    ensures n <= |s|
  {
    if s != [] && IsWhitespace(s[0]) then 1 + LeadingWhitespace(s[1..]) else 0
  }

  /** Number of whitespace characters at the end of `s`. */
  function TrailingWhitespace(s: string): (n: nat)
    ensures n <= |s|
  {
    if s != [] && IsWhitespace(s[|s| - 1]) then 1 + TrailingWhitespace(s[..|s| - 1]) else 0
  }

  /** `str::trim`: drop leading and trailing whitespace. */
  function Trim(s: string): string
  {
    var t := s[LeadingWhitespace(s)..];
    t[..|t| - TrailingWhitespace(t)]
  }

  lemma {:induction false} LeadingWhitespaceSpec(s: string)
    ensures forall i :: 0 <= i < LeadingWhitespace(s) ==> IsWhitespace(s[i])
    ensures LeadingWhitespace(s) < |s| ==> !IsWhitespace(s[LeadingWhitespace(s)])
  {
    if s != [] && IsWhitespace(s[0]) {
      LeadingWhitespaceSpec(s[1..]);
      forall i | 0 < i < LeadingWhitespace(s) ensures IsWhitespace(s[i]) {
        assert s[i] == s[1..][i - 1];
      }
    }
  }

  lemma {:induction false} TrailingWhitespaceSpec(s: string)
    ensures forall i :: |s| - TrailingWhitespace(s) <= i < |s| ==> IsWhitespace(s[i])
    ensures TrailingWhitespace(s) < |s| ==> !IsWhitespace(s[|s| - 1 - TrailingWhitespace(s)])
  {
    if s != [] && IsWhitespace(s[|s| - 1]) {
      var init := s[..|s| - 1];
      TrailingWhitespaceSpec(init);
      forall i | |s| - TrailingWhitespace(s) <= i < |s| - 1 ensures IsWhitespace(s[i]) {
        assert s[i] == init[i];
      }
    }
  }

  /**
    `trim` keeps a contiguous part of the text that neither starts nor ends
    with whitespace, and drops only whitespace around it.
  */
  lemma TrimSpec(s: string)
    ensures exists i, j ::
      && 0 <= i <= j <= |s| && Trim(s) == s[i..j]
      && (forall k :: 0 <= k < i ==> IsWhitespace(s[k]))
      && (forall k :: j <= k < |s| ==> IsWhitespace(s[k]))
    ensures Trim(s) == [] || (!IsWhitespace(Trim(s)[0]) && !IsWhitespace(Trim(s)[|Trim(s)| - 1]))
  {
    var i := LeadingWhitespace(s);
    var t := s[i..];
    var j := i + |t| - TrailingWhitespace(t);
    LeadingWhitespaceSpec(s);
    TrailingWhitespaceSpec(t);
    assert Trim(s) == s[i..j];
    forall k | j <= k < |s| ensures IsWhitespace(s[k]) {
      assert s[k] == t[k - i];
    }
    if Trim(s) != [] {
      assert Trim(s)[0] == s[i];
      assert Trim(s)[|Trim(s)| - 1] == t[|t| - 1 - TrailingWhitespace(t)];
    }
  }

  const U32Limit: nat := 0x1_0000_0000

  /**
    `s.parse::<u32>()`: an optional '+' sign followed by one or more ASCII
    digits whose value fits in 32 bits; anything else (empty text, a lone
    sign, a '-' sign, any other character, overflow) is an error.
  */
  function ParseU32(s: string): (r: Option<nat>)
    ensures r.Some? ==> r.value < U32Limit
  {
    var digits := if s != [] && s[0] == '+' then s[1..] else s;
    if digits == [] || !AllDigits(digits) then None
    else if DigitsValue(digits) < U32Limit then Some(DigitsValue(digits))
    else None
  }

  lemma ParseU32RoundTrip(n: nat)
    requires n < U32Limit
    ensures ParseU32(NatToString(n)) == Some(n)
    ensures ParseU32("+" + NatToString(n)) == Some(n)
  {
    DigitsRoundTrip(n);
    assert ("+" + NatToString(n))[1..] == NatToString(n);
  }

  /** Whatever parses is an optional '+' and a non-empty run of digits whose value is the result. */
  lemma ParseU32Sound(s: string, n: nat)
    requires ParseU32(s) == Some(n)
    ensures exists d :: d != [] && AllDigits(d) && (s == d || s == "+" + d) && DigitsValue(d) == n
  {
    if s != [] && s[0] == '+' {
      var d := s[1..];
      assert s == "+" + d;
      assert d != [] && AllDigits(d) && DigitsValue(d) == n;
    } else {
      assert s != [] && AllDigits(s) && DigitsValue(s) == n;
    }
  }

  /**
    Conversely, a non-empty run of digits, with or without a leading '+',
    parses to its value when that fits in 32 bits and fails otherwise.
  */
  lemma ParseU32Digits(d: string)
    requires d != [] && AllDigits(d)
    ensures ParseU32(d) == ParseU32("+" + d)
    ensures ParseU32(d) == if DigitsValue(d) < U32Limit then Some(DigitsValue(d)) else None
  {
    assert ("+" + d)[1..] == d;
    assert d[0] != '+' by {
      assert IsDigit(d[0]);
    }
  }

  lemma ParseU32RejectsMinus(s: string)
    requires s != [] && s[0] == '-'
    ensures ParseU32(s) == None
  {
    assert !IsDigit(s[0]);
  }
}
