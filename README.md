# Proton numeric-literal grammar, in Dafny

proton_lang.py declares, with modgrammar combinators, which strings count as
numeric literals of the Proton calculator language: decimal (`NZD` then a
mantissa), octal (`0` then an octal mantissa), binary and hex (a prefix of
decimal digits, the marker `b` or `x`, then a mantissa), and `Number`, the
alternation of the four. The mantissa comes from `number_format(digits)`,
which folds the characters of `digits` into a one-character alternation `g`
with a loop and returns `g "." g | "."? g`.

The project has four modules:

- `Combinators` (Combinators.dfy): a `Grammar` datatype for `L(...)`, `|`,
  sequencing, `OPTIONAL(...)` and `WORD(...)`, and `Matches(g, s)`, the
  whole-string language of a grammar. `Choice(ds)` is the left-nested
  alternation `L(ds[0]) | ds[1] | ...` that both `NZD` and `number_format`
  build.
- `ProtonLang` (ProtonLang.dfy): each rule built from those combinators
  exactly as declared (`NZD`, `HexDigit`, `NumberFormatGrammar`,
  `DecimalNumber`, `OctalNumber`, `BinaryNumber`, `HexNumber`, `Number`),
  `number_format` itself as the method `NumberFormat` with its loop, an
  independent direct predicate per rule (`IsNZD`, `IsDigitOf`,
  `IsNumberFormat`, `IsDecimal`, `IsOctal`, `IsBinary`, `IsHex`, `IsNumber`),
  and the `...Language` lemmas proving that each grammar matches exactly the
  strings its predicate accepts.
- `LiteralProperties` (LiteralProperties.dfy): what the accepted strings look
  like: mantissa shape, leading-digit rules, digit alphabets, where the
  marker sits, hex case-insensitivity, and pairwise disjointness of the four
  kinds of literal.
- `Wrappers` (Wrappers.dfy): the `Option` type used for the failure of
  `number_format` on an empty digit string.

The model follows the declarations as written. Two consequences are easy to
miss. A mantissa is a single digit, optionally with one `.` (`d.d`, `.d` or
`d`), so `0x1f`, the string the file parses on its last line, is not a whole
`Number` (`DemoLiteralRejected`). And no single digit such as `1` or `0` is a
literal, because every alternative needs a leading character and then a
mantissa digit. A richer literal syntax (multi-digit mantissas, a leading
`-`, exponent prefixes that scale the value, a trailing `j`, an alternate
octal spelling) is described for the language elsewhere, but these
declarations do not accept it; where the two differ the model follows the
code.

## Model

| member | source | states |
|---|---|---|
| Combinators.ChoiceLanguage | proton_lang.py:24-27 | the alternation built from `digits[0]` and `\|=` of each later character matches exactly the one-character strings whose character is in `digits` |
| ProtonLang.NumberFormat | proton_lang.py:24-28 | fails exactly when `digits` is empty (the `digits[0]` index); otherwise the loop builds `Choice(digits)` and the result matches exactly the strings of `IsNumberFormat(digits, ·)` |
| ProtonLang.NumberFormatLanguage | proton_lang.py:28 | `Grammar(g, ".", g) \| (OPTIONAL("."), g)` matches exactly `d.d`, `.d` and `d` with each `d` a character of `digits` |
| ProtonLang.NZDLanguage | proton_lang.py:18-19 | `NZD` matches exactly one character in `1`-`9` |
| ProtonLang.HexDigitLanguage | proton_lang.py:21-22 | `HexDigit` matches exactly one character in `0-9`, `a-f`, `A-F` |
| ProtonLang.DecimalLanguage | proton_lang.py:30-31 | `DecimalNumber` matches exactly a nonzero digit followed by a decimal mantissa |
| ProtonLang.OctalLanguage | proton_lang.py:33-34 | `OctalNumber` matches exactly `0` followed by an octal mantissa |
| ProtonLang.BasePrefixLanguage | proton_lang.py:37 | `L("0") \| (NZD, WORD("0-9"))` matches exactly `0`, or a nonzero digit followed by one or more decimal digits |
| ProtonLang.MarkedMantissaLanguage | proton_lang.py:37 | the marker literal followed by `number_format(digits)` matches exactly the marker then a mantissa |
| ProtonLang.BasedLanguage | proton_lang.py:36-40 | prefix, marker, mantissa in sequence matches exactly the strings that split at some index into a base prefix, the marker and a mantissa |
| ProtonLang.BinaryLanguage | proton_lang.py:36-37 | `BinaryNumber` matches exactly the strings of `IsBinary` (marker `b`, mantissa over `01`) |
| ProtonLang.HexLanguage | proton_lang.py:39-40 | `HexNumber` matches exactly the strings of `IsHex` (marker `x`, mantissa over `0-9a-fA-F`) |
| ProtonLang.NumberLanguage | proton_lang.py:42-43 | `Number` matches a string exactly when one of decimal, binary, hex or octal does |
| LiteralProperties.NumberFormatShape | proton_lang.py:28 | a mantissa has 1 to 3 characters, each a digit or `.`, ends with a digit, and holds at most one `.` |
| LiteralProperties.SingleDigitMantissa | proton_lang.py:24-28 | a one-character mantissa is accepted exactly when that character is one of `digits` |
| LiteralProperties.DecimalShape | proton_lang.py:30-31 | a decimal literal has 2 to 4 characters, a first character in `1`-`9`, only decimal digits and `.`, and ends with a digit |
| LiteralProperties.OctalShape | proton_lang.py:33-34 | an octal literal has 2 to 4 characters, starts with `0`, has only `0`-`7` and at most one `.` after it, and ends with an octal digit |
| LiteralProperties.BasePrefixShape | proton_lang.py:37 | a base prefix is non-empty, all decimal digits, and either exactly `0` or at least two digits with no leading zero |
| LiteralProperties.SingleDigitPrefix | proton_lang.py:37 | a one-digit base prefix is accepted exactly when it is `0` |
| LiteralProperties.MarkerIsFirst | proton_lang.py:36-40 | in an accepted binary or hex literal the marker is the first occurrence of its letter |
| LiteralProperties.BasedAtUnique | proton_lang.py:36-40 | a binary or hex literal splits into prefix, marker and mantissa at one index only |
| LiteralProperties.BasedShape | proton_lang.py:36-40 | a binary or hex literal has at least 3 characters, starts with a decimal digit, contains its marker, ends with a mantissa digit, and holds only digits, the marker and `.` |
| LiteralProperties.BinaryShape | proton_lang.py:36-37 | after the first `b` of a binary literal only `0`, `1` and `.` appear, and no `x` appears anywhere |
| LiteralProperties.HexShape | proton_lang.py:39-40 | after the first `x` of a hex literal only hex digits of either case and `.` appear |
| LiteralProperties.HexMantissaCase | proton_lang.py:40 | swapping the case of the letters of a hex mantissa keeps it a hex mantissa |
| LiteralProperties.HexCaseInsensitive | proton_lang.py:40 | a string is a hex literal exactly when the same string with the case of its `a-f`/`A-F` letters swapped is |
| LiteralProperties.NoMarker | proton_lang.py:36-40 | a string of only decimal digits and `.` is neither binary nor hex |
| LiteralProperties.AlternativesDisjoint | proton_lang.py:30-43 | no string is accepted by two of decimal, octal, binary and hex |
| LiteralProperties.NumberShape | proton_lang.py:42-43 | every `Number` has at least 2 characters, starts with a decimal digit (so not `-`) and does not end with `.` |
| LiteralProperties.NoSingleCharacterNumber | proton_lang.py:42-43 | `Number` matches no one-character string, so neither `0` nor `1` |
| LiteralProperties.DemoLiteralRejected | proton_lang.py:39-45 | `0x1f` is not a `Number`: its mantissa has two digits |
| LiteralProperties.AcceptedExamples | proton_lang.py:28-43 | `0x1`, `0xf`, `0x.F`, `1.5`, `0.7` and `10b1.1` are numbers |
| LiteralProperties.RejectedPrefixExamples | proton_lang.py:37 | `1b1` (single nonzero prefix digit) and `01b1` (leading zero) are not numbers |

## Left out

- Backend selection and the numeric constructors (proton_lang.py:6-16): they read the command line and wrap sympy or mpmath values; foreign calls and arbitrary-precision arithmetic.
- The call on proton_lang.py:45 that parses `0x1f` and prints the result: I/O, and its outcome depends on modgrammar's parse engine (partial matches, end of input, result objects). Only the set of whole strings each rule accepts is modelled.
- modgrammar's parser state machine, parse trees and error reporting: the combinators are given whole-string language meaning. `WORD` is greedy in modgrammar; here every `WORD` is followed by a fixed marker, so greedy and backtracking matching accept the same strings.
- Whitespace between sequence elements: modgrammar's default whitespace handling may allow spaces between the elements of a sequence; the model accepts no whitespace anywhere.
- A sequence of three elements is written as `Cat(a, Cat(b, c))`; concatenation is associative, so the language is the same.
- `HexDigit` is modelled (`HexDigitLanguage`) but, as in the source, used by no other rule.
- Decoding a literal to a value, expression evaluation, comment stripping, operator dispatch and scopes are not part of this model: no code for them is in proton_lang.py.
