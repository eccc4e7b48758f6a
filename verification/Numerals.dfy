/** Decimal numbers with leading zeros. */
module Numerals {
  import opened Decimals

  /** The texts of a number: any zeros, and its decimal text. */
  ghost predicate Spells(text: string, n: nat) { exists k: nat :: text == Noughts(k) + Decimal(n) }

  function Noughts(k: nat): string { seq(k, _ => '0') }

  lemma {:induction false} NoughtsAdd(k: nat, text: string)
    requires AllDigits(text)
    ensures AllDigits(Noughts(k) + text) && Value(Noughts(k) + text) == Value(text)
    decreases |text|
  {
    if text != "" {
      var n := |text| - 1;
      assert (Noughts(k) + text)[..k + n] == Noughts(k) + text[..n];
      NoughtsAdd(k, text[..n]);
    } else {
      assert Noughts(k) + text == Noughts(k);
      NoughtsAreZero(k);
    }
  }

  lemma {:induction false} NoughtsAreZero(k: nat)
    ensures AllDigits(Noughts(k)) && Value(Noughts(k)) == 0
  {
    if k > 0 {
      assert Noughts(k)[..k - 1] == Noughts(k - 1);
      NoughtsAreZero(k - 1);
    }
  }

  lemma {:induction false} SpellsOn(text: string, m: nat, d: nat)
    requires Spells(text, m) && d < 10
    ensures Spells(text + [(48 + d) as char], 10 * m + d)
  {
    var k: nat :| text == Noughts(k) + Decimal(m);
    var c := (48 + d) as char;
    if m == 0 {
      assert Noughts(k) + Decimal(0) == Noughts(k + 1);
      assert text + [c] == Noughts(k + 1) + Decimal(d);
    } else {
      assert text + [c] == Noughts(k) + (Decimal(m) + [c]);
      assert Decimal(m) + [c] == Decimal(10 * m + d);
    }
  }

  lemma {:induction false} DigitSpells(c: char)
    requires IsDigit(c)
    ensures Spells([c], c as int - 48)
  {
    assert [c] == Noughts(0) + Decimal(c as int - 48);
  }

  lemma {:induction false} DigitsSpell(text: string)
    requires text != "" && AllDigits(text)
    ensures Spells(text, Value(text))
  {
    hide Spells, Decimal;
    var n := |text| - 1;
    var c := text[n];
    assert IsDigit(c) && [(48 + (c as int - 48)) as char] == [c];
    assert text == text[..n] + [c];
    if n == 0 {
      assert text[..0] == "";
      DigitSpells(c);
    } else {
      DigitsSpell(text[..n]);
      SpellsOn(text[..n], Value(text[..n]), c as int - 48);
    }
  }

  /** A text spells a number exactly if it is a row of digits of that value. */
  lemma {:induction false} SpellsExactly(text: string, n: nat)
    ensures Spells(text, n) <==> text != "" && AllDigits(text) && Value(text) == n
  {
    hide AllDigits, Decimal, Value;
    if Spells(text, n) {
      var k: nat :| text == Noughts(k) + Decimal(n);
      DecimalReads(n);
      NoughtsAdd(k, Decimal(n));
    }
    if text != "" && AllDigits(text) {
      DigitsSpell(text);
    }
  }
}
