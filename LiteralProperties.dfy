/** What the numeric-literal rules of proton_lang.py promise about the
    strings they accept: the shape of a mantissa, the leading-digit rules,
    the digit alphabets, where the base marker sits, and that the four kinds
    of literal never overlap. */
module LiteralProperties {
  import opened Combinators
  import opened ProtonLang

  /** Index of the first `c` in `s`, or `|s|` when there is none. */
  function FirstIndexOf(s: string, c: char): (i: nat)
    ensures i <= |s|
    ensures i < |s| ==> s[i] == c
    ensures forall j :: 0 <= j < i ==> s[j] != c
  {
    if s == [] then 0
    else if s[0] == c then 0
    else 1 + FirstIndexOf(s[1..], c)
  }

  // ---------------------------------------------------------------------
  // number_format
  // ---------------------------------------------------------------------

  /** A mantissa is one to three characters, ends with a digit, and (for a
      digit string without `.`) holds at most one `.`. */
  lemma NumberFormatShape(digits: string, s: string)
    requires '.' !in digits
    requires IsNumberFormat(digits, s)
    ensures 1 <= |s| <= 3
    ensures IsDigitOf(digits, s[|s| - 1])
    ensures forall i :: 0 <= i < |s| ==> s[i] == '.' || IsDigitOf(digits, s[i])
    ensures forall i, j :: 0 <= i < j < |s| && s[i] == '.' ==> s[j] != '.'
  {
  }

  /** The alternation of `number_format` is one character of `digits`, and
      so a mantissa of a single digit is exactly one character of `digits`. */
  lemma SingleDigitMantissa(digits: string, c: char)
    requires '.' !in digits
    ensures IsNumberFormat(digits, [c]) <==> IsDigitOf(digits, c)
  {
  }

  // ---------------------------------------------------------------------
  // Decimal and octal
  // ---------------------------------------------------------------------

  /** A decimal literal: two to four characters, a nonzero first digit, then
      decimal digits and at most one `.`, never last. */
  lemma DecimalShape(s: string)
    requires IsDecimal(s)
    ensures 2 <= |s| <= 4
    ensures IsNZD(s[0])
    ensures forall i :: 0 <= i < |s| ==> IsDecimalDigit(s[i]) || s[i] == '.'
    ensures IsDecimalDigit(s[|s| - 1])
  {
    var m := s[1..];
    NumberFormatShape(DecimalDigits, m);
    forall i | 0 <= i < |s| ensures IsDecimalDigit(s[i]) || s[i] == '.' {
      if i > 0 {
        assert s[i] == m[i - 1];
        DecimalDigitsRange(s[i]);
      }
    }
    assert s[|s| - 1] == m[|m| - 1];
    DecimalDigitsRange(s[|s| - 1]);
  }

  /** An octal literal: `0`, then octal digits and at most one `.`, never last. */
  lemma OctalShape(s: string)
    requires IsOctal(s)
    ensures 2 <= |s| <= 4
    ensures s[0] == '0'
    ensures forall i :: 1 <= i < |s| ==> '0' <= s[i] <= '7' || s[i] == '.'
    ensures forall i, j :: 1 <= i < j < |s| && s[i] == '.' ==> s[j] != '.'
    ensures '0' <= s[|s| - 1] <= '7'
  {
    var m := s[1..];
    NumberFormatShape(OctalDigits, m);
    forall i | 1 <= i < |s| ensures '0' <= s[i] <= '7' || s[i] == '.' {
      assert s[i] == m[i - 1];
    }
    forall i, j | 1 <= i < j < |s| && s[i] == '.' ensures s[j] != '.' {
      assert s[i] == m[i - 1] && s[j] == m[j - 1];
    }
    assert s[|s| - 1] == m[|m| - 1];
  }

  // ---------------------------------------------------------------------
  // Binary and hex
  // ---------------------------------------------------------------------

  /** The part before a base marker is all decimal digits and has no leading
      zero unless it is exactly `0`. */
  lemma BasePrefixShape(p: string)
    requires IsBasePrefix(p)
    ensures |p| >= 1
    ensures forall i :: 0 <= i < |p| ==> IsDecimalDigit(p[i])
    ensures p == "0" || (|p| >= 2 && p[0] != '0')
  {
  }

  /** A one-digit prefix is accepted only when it is `0`: `1b1` is rejected. */
  lemma SingleDigitPrefix(c: char)
    ensures IsBasePrefix([c]) <==> c == '0'
  {
  }

  /** The marker of a binary or hex literal is the first occurrence of that
      letter, so a literal splits into prefix, marker and mantissa in one way
      only. */
  lemma MarkerIsFirst(s: string, marker: char, digits: string, k: int)
    requires !IsDecimalDigit(marker)
    requires IsBasedAt(s, marker, digits, k)
    ensures k == FirstIndexOf(s, marker)
  {
    BasePrefixShape(s[..k]);
  }

  lemma BasedAtUnique(s: string, marker: char, digits: string, k1: int, k2: int)
    requires !IsDecimalDigit(marker)
    requires IsBasedAt(s, marker, digits, k1) && IsBasedAt(s, marker, digits, k2)
    ensures k1 == k2
  {
    MarkerIsFirst(s, marker, digits, k1);
    MarkerIsFirst(s, marker, digits, k2);
  }

  /** Every character of a binary or hex literal is a decimal digit, the
      marker, `.`, or a mantissa digit; it starts with a decimal digit and
      has at least three characters. */
  lemma BasedShape(s: string, marker: char, digits: string)
    requires '.' !in digits
    requires IsBased(s, marker, digits)
    ensures |s| >= 3
    ensures IsDecimalDigit(s[0])
    ensures marker in s
    ensures IsDigitOf(digits, s[|s| - 1])
    ensures forall i :: 0 <= i < |s| ==>
      IsDecimalDigit(s[i]) || s[i] == marker || s[i] == '.' || IsDigitOf(digits, s[i])
  {
    var k :| 0 <= k < |s| && IsBasedAt(s, marker, digits, k);
    var p, m := s[..k], s[k + 1..];
    BasePrefixShape(p);
    NumberFormatShape(digits, m);
    assert s[0] == p[0];
    assert s[|s| - 1] == m[|m| - 1];
    forall i | 0 <= i < |s|
      ensures IsDecimalDigit(s[i]) || s[i] == marker || s[i] == '.' || IsDigitOf(digits, s[i])
    {
      if i < k {
        assert s[i] == p[i];
      } else if i > k {
        assert s[i] == m[i - k - 1];
      }
    }
  }

  /** Binary: after the marker only `0`, `1` and `.`; no `x` anywhere. */
  lemma BinaryShape(s: string)
    requires IsBinary(s)
    ensures |s| >= 3 && IsDecimalDigit(s[0])
    ensures FirstIndexOf(s, 'b') < |s|
    ensures forall i :: FirstIndexOf(s, 'b') < i < |s| ==> s[i] == '0' || s[i] == '1' || s[i] == '.'
    ensures forall i :: 0 <= i < |s| ==> s[i] != 'x'
  {
    var k :| 0 <= k < |s| && IsBasedAt(s, 'b', BinaryDigits, k);
    MarkerIsFirst(s, 'b', BinaryDigits, k);
    var p, m := s[..k], s[k + 1..];
    BasePrefixShape(p);
    NumberFormatShape(BinaryDigits, m);
    assert s[0] == p[0];
    forall i | 0 <= i < |s|
      ensures k < i ==> s[i] == '0' || s[i] == '1' || s[i] == '.'
      ensures s[i] != 'x'
    {
      if i < k {
        assert s[i] == p[i];
      } else if i > k {
        assert s[i] == m[i - k - 1];
      }
    }
  }

  lemma HexDigitsRange(c: char)
    ensures c in HexDigits <==> IsHexDigit(c)
  {
  }

  /** Hex: after the marker only hex digits of either case and `.`. */
  lemma HexShape(s: string)
    requires IsHex(s)
    ensures |s| >= 3 && IsDecimalDigit(s[0])
    ensures FirstIndexOf(s, 'x') < |s|
    ensures forall i :: FirstIndexOf(s, 'x') < i < |s| ==> IsHexDigit(s[i]) || s[i] == '.'
  {
    var k :| 0 <= k < |s| && IsBasedAt(s, 'x', HexDigits, k);
    MarkerIsFirst(s, 'x', HexDigits, k);
    var p, m := s[..k], s[k + 1..];
    BasePrefixShape(p);
    NumberFormatShape(HexDigits, m);
    assert s[0] == p[0];
    forall i | k < i < |s| ensures IsHexDigit(s[i]) || s[i] == '.' {
      assert s[i] == m[i - k - 1];
      HexDigitsRange(s[i]);
    }
  }

  /** Swaps the case of the letters `a`-`f` and `A`-`F`; leaves every other
      character alone. */
  function SwapHexCase(c: char): (d: char)
    ensures IsHexDigit(c) <==> IsHexDigit(d)
    ensures IsDecimalDigit(c) || c == '.' || c == 'x' ==> d == c
  {
    if 'a' <= c <= 'f' then (c as int - 32) as char
    else if 'A' <= c <= 'F' then (c as int + 32) as char
    else c
  }

  function SwapHexCaseAll(s: string): (r: string)
    ensures |r| == |s|
    ensures forall i :: 0 <= i < |s| ==> r[i] == SwapHexCase(s[i])
  {
    seq(|s|, i requires 0 <= i < |s| => SwapHexCase(s[i]))
  }

  lemma SwapHexCaseTwice(s: string)
    ensures SwapHexCaseAll(SwapHexCaseAll(s)) == s
  {
  }

  /** One mantissa digit stays a hex digit when its case is swapped. */
  lemma HexDigitCase(c: char)
    requires IsDigitOf(HexDigits, c)
    ensures IsDigitOf(HexDigits, SwapHexCase(c))
  {
    HexDigitsRange(c);
    HexDigitsRange(SwapHexCase(c));
  }

  /** A hex mantissa stays one when the case of its letters is swapped. */
  lemma HexMantissaCase(m: string)
    requires IsNumberFormat(HexDigits, m)
    ensures IsNumberFormat(HexDigits, SwapHexCaseAll(m))
  {
    var m' := SwapHexCaseAll(m);
    if |m| == 3 {
      HexDigitCase(m[0]);
      HexDigitCase(m[2]);
      assert m'[1] == '.';
    } else if |m| == 2 {
      HexDigitCase(m[1]);
      assert m'[0] == '.';
    } else {
      HexDigitCase(m[0]);
    }
  }

  lemma HexCaseSwapped(s: string)
    requires IsHex(s)
    ensures IsHex(SwapHexCaseAll(s))
  {
    var k :| 0 <= k < |s| && IsBasedAt(s, 'x', HexDigits, k);
    var t := SwapHexCaseAll(s);
    BasePrefixShape(s[..k]);
    assert t[..k] == s[..k] by {
      forall i | 0 <= i < k ensures t[..k][i] == s[..k][i] {
        assert IsDecimalDigit(s[..k][i]);
      }
    }
    assert t[k + 1..] == SwapHexCaseAll(s[k + 1..]);
    HexMantissaCase(s[k + 1..]);
    assert IsBasedAt(t, 'x', HexDigits, k);
  }

  /** The hex mantissa accepts its letters in either case: swapping the case
      of every hex letter neither makes nor unmakes a hex literal. */
  lemma HexCaseInsensitive(s: string)
    ensures IsHex(s) <==> IsHex(SwapHexCaseAll(s))
  {
    var t := SwapHexCaseAll(s);
    SwapHexCaseTwice(s);
    if IsHex(s) {
      HexCaseSwapped(s);
    }
    if IsHex(t) {
      HexCaseSwapped(t);
    }
  }

  // ---------------------------------------------------------------------
  // Number
  // ---------------------------------------------------------------------

  /** The four alternatives of `Number` never accept the same string. */
  lemma AlternativesDisjoint(s: string)
    ensures IsDecimal(s) ==> !IsOctal(s) && !IsBinary(s) && !IsHex(s)
    ensures IsOctal(s) ==> !IsBinary(s) && !IsHex(s)
    ensures IsBinary(s) ==> !IsHex(s)
  {
    if IsDecimal(s) {
      DecimalShape(s);
      NoMarker(s);
    }
    if IsOctal(s) {
      OctalShape(s);
      NoMarker(s);
    }
    if IsBinary(s) && IsHex(s) {
      BinaryShape(s);
      BasedShape(s, 'x', HexDigits);
      assert false;
    }
  }

  /** A string of digits and dots is neither binary nor hex. */
  lemma NoMarker(s: string)
    requires forall i :: 0 <= i < |s| ==> IsDecimalDigit(s[i]) || s[i] == '.'
    ensures !IsBinary(s) && !IsHex(s)
  {
    if IsBinary(s) {
      BasedShape(s, 'b', BinaryDigits);
      assert false;
    }
    if IsHex(s) {
      BasedShape(s, 'x', HexDigits);
      assert false;
    }
  }

  /** No accepted literal is empty, starts with `-`, is a single digit, or
      ends with `.`. */
  lemma NumberShape(s: string)
    requires IsNumber(s)
    ensures |s| >= 2
    ensures IsDecimalDigit(s[0])
    ensures s[|s| - 1] != '.'
  {
    if IsDecimal(s) {
      DecimalShape(s);
    } else if IsOctal(s) {
      OctalShape(s);
    } else if IsBinary(s) {
      BasedShape(s, 'b', BinaryDigits);
    } else {
      BasedShape(s, 'x', HexDigits);
    }
  }

  /** `Number` matches no single character, so neither `0` nor `1` is a literal. */
  lemma NoSingleCharacterNumber(c: char)
    ensures !Matches(Number(), [c])
  {
    NumberLanguage([c]);
    if IsNumber([c]) {
      NumberShape([c]);
    }
  }

  /** The mantissa is a single digit: `0x1f`, the string the source parses
      on its last line, is not a `Number`. */
  lemma DemoLiteralRejected()
    ensures !IsNumber("0x1f")
  {
  }

  /** A one-digit mantissa after a marker, and a digit-dot-digit decimal. */
  lemma AcceptedExamples()
    ensures IsNumber("0x1") && IsNumber("0xf") && IsNumber("0x.F")
    ensures IsNumber("1.5") && IsNumber("0.7") && IsNumber("10b1.1")
  {
    assert IsBasedAt("0x1", 'x', HexDigits, 1);
    assert IsBasedAt("0xf", 'x', HexDigits, 1);
    assert IsBasedAt("0x.F", 'x', HexDigits, 1);
    assert IsBasedAt("10b1.1", 'b', BinaryDigits, 2);
  }

  /** A one-digit prefix other than `0`, and a prefix with a leading zero,
      are both rejected before a marker. */
  lemma RejectedPrefixExamples()
    ensures !IsNumber("1b1") && !IsNumber("01b1")
  {
  }
}
