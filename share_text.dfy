/** The text the game puts on the clipboard when the player shares the
    final score, and the decimal rendering of numbers it is built from. */
module ShareText {
  import opened QuizData

  predicate IsDigit(c: char)
  {
    '0' <= c <= '9'
  }

  predicate AllDigits(s: string)
  {
    forall i | 0 <= i < |s| :: IsDigit(s[i])
  }

  function DigitChar(d: nat): (c: char)
    requires d < 10
    ensures IsDigit(c)
  {
    (('0' as int) + d) as char
  }

  function DigitValue(c: char): (d: nat)
    requires IsDigit(c)
    ensures d < 10 && DigitChar(d) == c
  {
    (c as int) - ('0' as int)
  }

  /** How a template literal renders a non-negative integer: its decimal
      digits, most significant first, with no leading zero. */
  function DecimalString(n: nat): (s: string)
    ensures 0 < |s| && AllDigits(s)
    ensures s[0] == '0' ==> n == 0 && s == "0"
  {
    if n < 10 then [DigitChar(n)] else DecimalString(n / 10) + [DigitChar(n % 10)]
  }

  /** The value of a string of decimal digits. */
  function DecimalValue(s: string): nat
    requires AllDigits(s)
  {
    if s == [] then 0 else DecimalValue(s[..|s| - 1]) * 10 + DigitValue(s[|s| - 1])
  }

  /** Reading back the rendering of a number gives the number. */
  lemma {:induction false} DecimalRoundTrip(n: nat)
    ensures DecimalValue(DecimalString(n)) == n
  {
    var s := DecimalString(n);
    if n >= 10 {
      DecimalRoundTrip(n / 10);
      assert s[..|s| - 1] == DecimalString(n / 10);
    } else {
      assert s[..0] == [];
    }
  }

  /** Two different numbers never render to the same string. */
  lemma DecimalStringInjective(a: nat, b: nat)
    ensures DecimalString(a) == DecimalString(b) <==> a == b
  {
    DecimalRoundTrip(a);
    DecimalRoundTrip(b);
  }

  /** The length of the run of digits a string starts with. */
  function DigitRunLength(s: string): nat
  {
    if s == [] || !IsDigit(s[0]) then 0 else 1 + DigitRunLength(s[1..])
  }

  /** Digits followed by a non-digit: the run ends where the digits end. */
  lemma {:induction false} DigitRunLengthOf(x: string, r: string)
    requires AllDigits(x)
    requires 0 < |r| && !IsDigit(r[0])
    ensures DigitRunLength(x + r) == |x|
  {
    if x != [] {
      assert (x + r)[1..] == x[1..] + r;
      DigitRunLengthOf(x[1..], r);
    } else {
      assert x + r == r;
    }
  }

  /** A run of digits followed by a non-digit is recovered from the
      concatenation: the digits end where the first non-digit starts. */
  lemma DigitRunUnique(x: string, y: string, r: string, r': string)
    requires AllDigits(x) && AllDigits(y)
    requires 0 < |r| && !IsDigit(r[0]) && 0 < |r'| && !IsDigit(r'[0])
    requires x + r == y + r'
    ensures x == y
  {
    DigitRunLengthOf(x, r);
    DigitRunLengthOf(y, r');
    assert x == (x + r)[..|x|];
    assert y == (y + r')[..|y|];
  }

  const ShareIntro: string := "I scored "
  const ShareOutro: string := " points on My Glimpsy! Can you beat me? Try it now at myglimpsy.com"

  /** What follows the score in the shared text. */
  const ShareTail: string := " out of " + DecimalString(TotalPoints(Questions)) + ShareOutro

  /** The text shared for a final score. It starts with the intro, and the
      run of digits after the intro reads back as the score. */
  function Share(score: nat): (text: string)
    ensures |ShareIntro| < |text| && text[..|ShareIntro|] == ShareIntro
    ensures var rest := text[|ShareIntro|..];
            var k := DigitRunLength(rest);
            k <= |rest| && AllDigits(rest[..k]) && DecimalValue(rest[..k]) == score
  {
    var digits := DecimalString(score);
    var rest := digits + ShareTail;
    DigitRunLengthOf(digits, ShareTail);
    DecimalRoundTrip(score);
    assert rest[..|digits|] == digits;
    ShareIntro + rest
  }

  /** The shared text says which score was reached: two scores share the
      same text exactly when they are equal. */
  lemma ShareDeterminesScore(a: nat, b: nat)
    ensures Share(a) == Share(b) <==> a == b
  {
    if Share(a) == Share(b) {
      var da, db := DecimalString(a), DecimalString(b);
      assert da + ShareTail == Share(a)[|ShareIntro|..];
      assert db + ShareTail == Share(b)[|ShareIntro|..];
      DigitRunUnique(da, db, ShareTail, ShareTail);
      DecimalStringInjective(a, b);
    }
  }

  /** A perfect game is shared as "I scored 15 out of 15 points on My
      Glimpsy! ...". */
  lemma SharePerfect()
    ensures Share(15) == "I scored 15 out of 15" + ShareOutro
  {
    QuestionsTotal();
    assert DecimalString(15) == "15" by {
      assert DecimalString(1) == "1";
      assert DigitChar(5) == '5';
    }
    assert "I scored " + ("15" + (" out of " + "15" + ShareOutro)) == "I scored 15 out of 15" + ShareOutro;
  }
}
