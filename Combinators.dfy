/** The grammar combinators the numeric-literal rules are written with, given
    the meaning of a language: the set of whole strings a grammar matches.

    - `Lit(t)` is `L("t")` (and a bare string operand of `|` or of a sequence),
    - `Alt(a, b)` is `a | b`,
    - `Cat(a, b)` is the sequence `(a, b)`; a longer sequence nests to the right,
    - `Optional(g)` is `OPTIONAL(g)`,
    - `Word(chars)` is `WORD(...)`: one or more characters, each one of `chars`.
 */
module Combinators {

  datatype Grammar =
    | Lit(text: string)
    | Alt(left: Grammar, right: Grammar)
    | Cat(first: Grammar, rest: Grammar)
    | Optional(body: Grammar)
    | Word(chars: string)

  /** Does `g` match the whole of `s`? */
  predicate Matches(g: Grammar, s: string)
    decreases g
  {
    match g
    case Lit(t) => s == t
    case Alt(a, b) => Matches(a, s) || Matches(b, s)
    case Cat(a, b) => exists k :: 0 <= k <= |s| && Matches(a, s[..k]) && Matches(b, s[k..])
    case Optional(b) => s == [] || Matches(b, s)
    case Word(cs) => |s| > 0 && forall i :: 0 <= i < |s| ==> s[i] in cs
  }

  /** Every string `g` matches has length `n`. */
  ghost predicate FixedLength(g: Grammar, n: nat) {
    forall s :: Matches(g, s) ==> |s| == n
  }

  /** The left-nested alternation of one-character literals
      `L(ds[0]) | ds[1] | ... | ds[|ds|-1]`. */
  function Choice(ds: string): Grammar
    requires |ds| > 0
    decreases |ds|
  {
    if |ds| == 1 then Lit([ds[0]])
    else Alt(Choice(ds[..|ds| - 1]), Lit([ds[|ds| - 1]]))
  }

  /** An alternation of one-character literals matches exactly the
      one-character strings whose character is one of the alternatives. */
  lemma {:induction false} ChoiceLanguage(ds: string, s: string)
    requires |ds| > 0
    ensures Matches(Choice(ds), s) <==> |s| == 1 && s[0] in ds
    decreases |ds|
  {
    if |ds| > 1 {
      var front := ds[..|ds| - 1];
      ChoiceLanguage(front, s);
      assert ds == front + [ds[|ds| - 1]];
      if |s| == 1 && s[0] in ds && s[0] !in front {
        assert s == [ds[|ds| - 1]];
      }
    }
  }

  lemma ChoiceFixedLength(ds: string)
    requires |ds| > 0
    ensures FixedLength(Choice(ds), 1)
  {
    forall s | Matches(Choice(ds), s) ensures |s| == 1 {
      ChoiceLanguage(ds, s);
    }
  }

  /** A sequence whose first element has a fixed length splits at that length. */
  lemma CatFixedLeft(a: Grammar, b: Grammar, n: nat, s: string)
    requires FixedLength(a, n)
    ensures Matches(Cat(a, b), s) <==> n <= |s| && Matches(a, s[..n]) && Matches(b, s[n..])
  {
    if Matches(Cat(a, b), s) {
      var k :| 0 <= k <= |s| && Matches(a, s[..k]) && Matches(b, s[k..]);
      assert |s[..k]| == n;
    }
  }

  /** A sequence whose last element has a fixed length splits that far from the end. */
  lemma CatFixedRight(a: Grammar, b: Grammar, n: nat, s: string)
    requires FixedLength(b, n)
    ensures Matches(Cat(a, b), s) <==>
      n <= |s| && Matches(a, s[..|s| - n]) && Matches(b, s[|s| - n..])
  {
    if Matches(Cat(a, b), s) {
      var k :| 0 <= k <= |s| && Matches(a, s[..k]) && Matches(b, s[k..]);
      assert |s[k..]| == n;
    }
  }

  lemma LitFixedLength(t: string)
    ensures FixedLength(Lit(t), |t|)
  {
  }
}
