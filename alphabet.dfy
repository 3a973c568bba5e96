/** The glyphs a split-flap cell can show, in the order its flaps turn over. */
module Alphabet {

  /** Stands in for every input character the display cannot show; the last flap. */
  const Replacement: char := '☒'

  /** What both halves of a freshly built cell show: a non-breaking space, which is
      deliberately not one of the flaps. */
  const Blank: char := '\U{00A0}'

  const Digits: string := "1234567890"
  const Letters: string := "ABCDEFGHIJKLMNOPQRSTUVWXYZ"
  const Marks: string := ",.?;:/'\"!&()-’"

  /** Every glyph a cell can display: the space first, the replacement last. */
  const Characters: string := " " + Digits + Letters + Marks + [Replacement]

  /** No glyph appears twice in a sequence. */
  predicate Distinct(s: string)
  {
    forall i, j :: 0 <= i < j < |s| ==> s[i] != s[j]
  }

  lemma CharactersEnds()
    ensures |Characters| == 52
    ensures Characters[0] == ' ' && Characters[|Characters| - 1] == Replacement
  {
  }

  /** The blank of a new cell is not a flap, so a cell never starts on its target. */
  lemma BlankIsNotAFlap()
    ensures Replacement in Characters && ' ' in Characters
    ensures Blank !in Characters
  {
  }

  // Which block of the alphabet a glyph belongs to; blocks appear in this order.
  function Block(c: char): nat
  {
    if c == ' ' then 0
    else if '0' <= c <= '9' then 1
    else if 'A' <= c <= 'Z' then 2
    else if c == Replacement then 4
    else 3
  }

  predicate InBlock(s: string, b: nat)
  {
    forall i :: 0 <= i < |s| ==> Block(s[i]) == b
  }

  predicate Before(s: string, b: nat)
  {
    forall i :: 0 <= i < |s| ==> Block(s[i]) < b
  }

  lemma BlocksOfCharacters()
    ensures InBlock(" ", 0) && InBlock(Digits, 1) && InBlock(Letters, 2)
    ensures InBlock(Marks, 3) && InBlock([Replacement], 4)
  {
  }

  lemma BlocksDistinct()
    ensures Distinct(Digits) && Distinct(Letters) && Distinct(Marks)
  {
  }

  lemma AppendBlock(a: string, b: string, n: nat)
    requires Distinct(a) && Before(a, n)
    requires Distinct(b) && InBlock(b, n)
    ensures Distinct(a + b) && Before(a + b, n + 1)
  {
    forall i, j | 0 <= i < j < |a + b|
      ensures (a + b)[i] != (a + b)[j]
    {
      if i < |a| <= j {
        assert Block(a[i]) < n == Block(b[j - |a|]);
      }
    }
  }

  /** The alphabet has no duplicate glyphs, so every glyph has exactly one position. */
  lemma CharactersDistinct()
    ensures Distinct(Characters)
  {
    BlocksOfCharacters();
    BlocksDistinct();
    AppendBlock([], " ", 0);
    AppendBlock(" ", Digits, 1);
    AppendBlock(" " + Digits, Letters, 2);
    AppendBlock(" " + Digits + Letters, Marks, 3);
    AppendBlock(" " + Digits + Letters + Marks, [Replacement], 4);
  }

  /** Position of the first occurrence of `c` in `s`. */
  function IndexOf(s: string, c: char): (k: nat)
    requires c in s
    ensures k < |s| && s[k] == c
    ensures c !in s[..k]
  {
    if s[0] == c then 0 else 1 + IndexOf(s[1..], c)
  }
}
