/** The numeric-literal grammar of proton_lang.py.

    Each rule appears twice: as the combinator grammar the source declares
    (`NZD`, `DecimalNumber`, ..., built from `Combinators`), and as a direct
    predicate on whole strings (`IsNZD`, `IsDecimal`, ...). The `...Language`
    lemmas prove that each grammar matches exactly the strings its predicate
    accepts.
 */
module ProtonLang {
  import opened Combinators
  import opened Wrappers

  // The digit strings the rules pass to number_format, and the alternatives
  // of NZD and HexDigit, in the source's order.
  const DecimalDigits: string := "0123456789"
  const OctalDigits: string := "01234567"
  const BinaryDigits: string := "01"
  const HexDigits: string := "0123456789abcdefABCDEF"
  const NonZeroDigits: string := "123456789"
  const HexDigitAlternatives: string := "0123456789aAbBcCdDeEfF"

  // ---------------------------------------------------------------------
  // The rules as declared
  // ---------------------------------------------------------------------

  /** `NZD`: `L("1") | "2" | ... | "9"`. */
  function NZD(): Grammar {
    Choice(NonZeroDigits)
  }

  /** `HexDigit`: declared, but used by no other rule. */
  function HexDigit(): Grammar {
    Choice(HexDigitAlternatives)
  }

  /** What `number_format(digits)` returns: with `g` the alternation of the
      characters of `digits`, `Grammar(g, ".", g) | (OPTIONAL("."), g)`. */
  function NumberFormatGrammar(digits: string): Grammar
    requires |digits| > 0
  {
    var g := Choice(digits);
    Alt(Cat(g, Cat(Lit("."), g)), Cat(Optional(Lit(".")), g))
  }

  /** `number_format`: builds the alternation `g` one character at a time
      (`g |= i`), then the fixed shape around it. On an empty `digits` the
      source fails at `digits[0]`; that failure is `None` here. */
  method NumberFormat(digits: string) returns (r: Option<Grammar>)
    ensures r.None? <==> digits == []
    ensures r.Some? ==> r.value == NumberFormatGrammar(digits)
    ensures r.Some? ==> forall s :: Matches(r.value, s) <==> IsNumberFormat(digits, s)
  {
    if |digits| == 0 {
      return None;
    }
    var g := Lit([digits[0]]);
    for k := 1 to |digits|
      invariant g == Choice(digits[..k])
    {
      assert digits[..k + 1][..k] == digits[..k];
      g := Alt(g, Lit([digits[k]]));
    }
    assert digits[..|digits|] == digits;
    r := Some(Alt(Cat(g, Cat(Lit("."), g)), Cat(Optional(Lit(".")), g)));
    forall s ensures Matches(r.value, s) <==> IsNumberFormat(digits, s) {
      NumberFormatLanguage(digits, s);
    }
  }

  /** `DecimalNumber`: `(NZD, number_format("0123456789"))`. */
  function DecimalNumber(): Grammar {
    Cat(NZD(), NumberFormatGrammar(DecimalDigits))
  }

  /** `OctalNumber`: `("0", number_format("01234567"))`. */
  function OctalNumber(): Grammar {
    Cat(Lit("0"), NumberFormatGrammar(OctalDigits))
  }

  /** The part before the base marker in `BinaryNumber` and `HexNumber`:
      `L("0") | (NZD, WORD("0-9"))`. */
  function BasePrefix(): Grammar {
    Alt(Lit("0"), Cat(NZD(), Word(DecimalDigits)))
  }

  /** `BinaryNumber`: `(L("0") | (NZD, WORD("0-9")), "b", number_format("01"))`. */
  function BinaryNumber(): Grammar {
    Cat(BasePrefix(), Cat(Lit("b"), NumberFormatGrammar(BinaryDigits)))
  }

  /** `HexNumber`: `(L("0") | (NZD, WORD("0-9")), "x", number_format(<hex digits>))`. */
  function HexNumber(): Grammar {
    Cat(BasePrefix(), Cat(Lit("x"), NumberFormatGrammar(HexDigits)))
  }

  /** `Number`: `DecimalNumber | BinaryNumber | HexNumber | OctalNumber`. */
  function Number(): Grammar {
    Alt(Alt(Alt(DecimalNumber(), BinaryNumber()), HexNumber()), OctalNumber())
  }

  // ---------------------------------------------------------------------
  // The same languages, stated directly on strings
  // ---------------------------------------------------------------------

  predicate IsNZD(c: char) {
    '1' <= c <= '9'
  }

  predicate IsDecimalDigit(c: char) {
    '0' <= c <= '9'
  }

  predicate IsHexDigit(c: char) {
    '0' <= c <= '9' || 'a' <= c <= 'f' || 'A' <= c <= 'F'
  }

  predicate IsDigitOf(digits: string, c: char) {
    c in digits
  }

  /** A mantissa: `d "." d`, `"." d` or `d`, each `d` one character of `digits`. */
  predicate IsNumberFormat(digits: string, s: string) {
    || (|s| == 3 && IsDigitOf(digits, s[0]) && s[1] == '.' && IsDigitOf(digits, s[2]))
    || (|s| == 2 && s[0] == '.' && IsDigitOf(digits, s[1]))
    || (|s| == 1 && IsDigitOf(digits, s[0]))
  }

  predicate IsDecimal(s: string) {
    |s| >= 2 && IsNZD(s[0]) && IsNumberFormat(DecimalDigits, s[1..])
  }

  predicate IsOctal(s: string) {
    |s| >= 2 && s[0] == '0' && IsNumberFormat(OctalDigits, s[1..])
  }

  /** Exactly `0`, or a nonzero digit followed by one or more decimal digits. */
  predicate IsBasePrefix(p: string) {
    || p == "0"
    || (|p| >= 2 && IsNZD(p[0]) && forall i :: 1 <= i < |p| ==> IsDecimalDigit(p[i]))
  }

  /** A base prefix, the marker at index `k`, then a mantissa over `digits`. */
  predicate IsBasedAt(s: string, marker: char, digits: string, k: int) {
    0 <= k < |s| && s[k] == marker && IsBasePrefix(s[..k]) && IsNumberFormat(digits, s[k + 1..])
  }

  predicate IsBased(s: string, marker: char, digits: string) {
    exists k :: 0 <= k < |s| && IsBasedAt(s, marker, digits, k)
  }

  predicate IsBinary(s: string) {
    IsBased(s, 'b', BinaryDigits)
  }

  predicate IsHex(s: string) {
    IsBased(s, 'x', HexDigits)
  }

  predicate IsNumber(s: string) {
    IsDecimal(s) || IsBinary(s) || IsHex(s) || IsOctal(s)
  }

  // ---------------------------------------------------------------------
  // Each grammar matches exactly the strings of its predicate
  // ---------------------------------------------------------------------

  lemma NonZeroDigitsRange(c: char)
    ensures c in NonZeroDigits <==> IsNZD(c)
  {
  }

  lemma DecimalDigitsRange(c: char)
    ensures c in DecimalDigits <==> IsDecimalDigit(c)
  {
  }

  lemma HexAlternativesRange(c: char)
    ensures c in HexDigitAlternatives <==> IsHexDigit(c)
  {
  }

  lemma NZDLanguage(s: string)
    ensures Matches(NZD(), s) <==> |s| == 1 && IsNZD(s[0])
  {
    ChoiceLanguage(NonZeroDigits, s);
    if |s| == 1 {
      NonZeroDigitsRange(s[0]);
    }
  }

  lemma HexDigitLanguage(s: string)
    ensures Matches(HexDigit(), s) <==> |s| == 1 && IsHexDigit(s[0])
  {
    ChoiceLanguage(HexDigitAlternatives, s);
    if |s| == 1 {
      HexAlternativesRange(s[0]);
    }
  }

  lemma NumberFormatLanguage(digits: string, s: string)
    requires |digits| > 0
    ensures Matches(NumberFormatGrammar(digits), s) <==> IsNumberFormat(digits, s)
  {
    var g := Choice(digits);
    ChoiceFixedLength(digits);
    LitFixedLength(".");
    CatFixedLeft(g, Cat(Lit("."), g), 1, s);
    CatFixedRight(Optional(Lit(".")), g, 1, s);
    if |s| >= 1 {
      CatFixedLeft(Lit("."), g, 1, s[1..]);
      ChoiceLanguage(digits, s[..1]);
      ChoiceLanguage(digits, s[|s| - 1..]);
      assert s[..1] == [s[0]];
      assert s[|s| - 1..] == [s[|s| - 1]];
      if |s| >= 2 {
        assert s[1..][1..] == s[2..];
        ChoiceLanguage(digits, s[2..]);
        assert s[1..][..1] == [s[1]];
      }
    }
  }

  lemma DecimalLanguage(s: string)
    ensures Matches(DecimalNumber(), s) <==> IsDecimal(s)
  {
    ChoiceFixedLength(NonZeroDigits);
    CatFixedLeft(NZD(), NumberFormatGrammar(DecimalDigits), 1, s);
    if |s| >= 1 {
      NZDLanguage(s[..1]);
      NumberFormatLanguage(DecimalDigits, s[1..]);
    }
  }

  lemma OctalLanguage(s: string)
    ensures Matches(OctalNumber(), s) <==> IsOctal(s)
  {
    LitFixedLength("0");
    CatFixedLeft(Lit("0"), NumberFormatGrammar(OctalDigits), 1, s);
    if |s| >= 1 {
      assert s[..1] == "0" <==> s[0] == '0';
      NumberFormatLanguage(OctalDigits, s[1..]);
    }
  }

  lemma BasePrefixLanguage(p: string)
    ensures Matches(BasePrefix(), p) <==> IsBasePrefix(p)
  {
    ChoiceFixedLength(NonZeroDigits);
    CatFixedLeft(NZD(), Word(DecimalDigits), 1, p);
    if |p| >= 1 {
      NZDLanguage(p[..1]);
      if |p| >= 2 {
        var w := p[1..];
        assert (forall i :: 0 <= i < |w| ==> w[i] in DecimalDigits)
           <==> (forall i :: 1 <= i < |p| ==> IsDecimalDigit(p[i])) by {
          if forall i :: 0 <= i < |w| ==> w[i] in DecimalDigits {
            forall i | 1 <= i < |p| ensures IsDecimalDigit(p[i]) {
              assert w[i - 1] == p[i];
              DecimalDigitsRange(p[i]);
            }
          }
          if forall i :: 1 <= i < |p| ==> IsDecimalDigit(p[i]) {
            forall i | 0 <= i < |w| ensures w[i] in DecimalDigits {
              assert w[i] == p[i + 1];
              DecimalDigitsRange(w[i]);
            }
          }
        }
      }
    }
  }

  /** The grammar after the base prefix: the marker, then a mantissa. */
  lemma MarkedMantissaLanguage(marker: char, digits: string, t: string)
    requires |digits| > 0
    ensures Matches(Cat(Lit([marker]), NumberFormatGrammar(digits)), t)
        <==> |t| >= 1 && t[0] == marker && IsNumberFormat(digits, t[1..])
  {
    LitFixedLength([marker]);
    CatFixedLeft(Lit([marker]), NumberFormatGrammar(digits), 1, t);
    if |t| >= 1 {
      assert t[..1] == [marker] <==> t[0] == marker;
      NumberFormatLanguage(digits, t[1..]);
    }
  }

  /** The shared shape of `BinaryNumber` and `HexNumber`. */
  lemma BasedLanguage(marker: char, digits: string, s: string)
    requires |digits| > 0
    ensures Matches(Cat(BasePrefix(), Cat(Lit([marker]), NumberFormatGrammar(digits))), s)
        <==> IsBased(s, marker, digits)
  {
    var rest := Cat(Lit([marker]), NumberFormatGrammar(digits));
    if Matches(Cat(BasePrefix(), rest), s) {
      var k :| 0 <= k <= |s| && Matches(BasePrefix(), s[..k]) && Matches(rest, s[k..]);
      MarkedMantissaLanguage(marker, digits, s[k..]);
      BasePrefixLanguage(s[..k]);
      assert s[k..][1..] == s[k + 1..];
      assert IsBasedAt(s, marker, digits, k);
    }
    if IsBased(s, marker, digits) {
      var k :| 0 <= k < |s| && IsBasedAt(s, marker, digits, k);
      BasePrefixLanguage(s[..k]);
      MarkedMantissaLanguage(marker, digits, s[k..]);
      assert s[k..][1..] == s[k + 1..];
      assert Matches(BasePrefix(), s[..k]) && Matches(rest, s[k..]);
    }
  }

  lemma BinaryLanguage(s: string)
    ensures Matches(BinaryNumber(), s) <==> IsBinary(s)
  {
    BasedLanguage('b', BinaryDigits, s);
  }

  lemma HexLanguage(s: string)
    ensures Matches(HexNumber(), s) <==> IsHex(s)
  {
    BasedLanguage('x', HexDigits, s);
  }

  /** `Number` accepts a string exactly when one of its four alternatives does. */
  lemma NumberLanguage(s: string)
    ensures Matches(Number(), s) <==> IsNumber(s)
  {
    DecimalLanguage(s);
    BinaryLanguage(s);
    HexLanguage(s);
    OctalLanguage(s);
  }
}
