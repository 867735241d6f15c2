/**
 * The clicker sample: the abbreviation of large scores ("12 thousand", "3 quattuordecillion")
 * and the score/power updates driven by the mouse. Scores are unbounded naturals shown in decimal.
 */
module Clicker {
  import opened Str

  /** The suffix for 3k dropped digits, k = 1 .. 15. */
  const SUFFIXES: seq<string> := [
    " thousand", " million", " billion", " trillion", " quadrillion", " quintillion", " sextillion",
    " septillion", " octillion", " nonillion", " decillion", " undecillion", " duodecillion",
    " tredecillion", " quattuordecillion"]

  /**
   * ShortNumberRepresentation on the decimal text: up to 3 digits as they are; otherwise the
   * leading digits left after dropping the largest multiple of three (at most 45) that leaves at
   * least one, followed by the matching suffix.
   */
  function ShortNumberRepresentation(str: string): (r: string)
    ensures |str| <= 3 ==> r == str
    ensures |str| > 3 ==> |r| > |str| - 45
  {
    var len := |str|;
    if len > 45 then str[..len - 45] + " quattuordecillion"
    else if len > 42 then str[..len - 42] + " tredecillion"
    else if len > 39 then str[..len - 39] + " duodecillion"
    else if len > 36 then str[..len - 36] + " undecillion"
    else if len > 33 then str[..len - 33] + " decillion"
    else if len > 30 then str[..len - 30] + " nonillion"
    else if len > 27 then str[..len - 27] + " octillion"
    else if len > 24 then str[..len - 24] + " septillion"
    else if len > 21 then str[..len - 21] + " sextillion"
    else if len > 18 then str[..len - 18] + " quintillion"
    else if len > 15 then str[..len - 15] + " quadrillion"
    else if len > 12 then str[..len - 12] + " trillion"
    else if len > 9 then str[..len - 9] + " billion"
    else if len > 6 then str[..len - 6] + " million"
    else if len > 3 then str[..len - 3] + " thousand"
    else str
  }

  /** The number of digit groups ShortNumberRepresentation drops for a text of this length. */
  function Groups(len: nat): (k: nat)
    ensures k <= 15
    ensures len <= 3 ==> k == 0
    ensures 3 < len <= 48 ==> 3 * k < len <= 3 * k + 3
    ensures len > 45 ==> k == 15
  {
    if len > 45 then 15 else if len <= 3 then 0 else (len - 1) / 3
  }

  /**
   * The chain of cases is one rule: drop the k = Groups(|str|) last digit groups and append the
   * k-th suffix. Every result starts with 1 to 3 of the leading digits, for texts up to 48 long.
   */
  lemma ShortByGroups(str: string)
    ensures var k := Groups(|str|);
            ShortNumberRepresentation(str) == str[..|str| - 3 * k] + (if k == 0 then "" else SUFFIXES[k - 1])
    ensures 0 < |str| <= 48 ==> 1 <= |str| - 3 * Groups(|str|) <= 3
  {
    var len := |str|;
    var k := Groups(len);
    if len > 45 {
      assert k == 15 && SUFFIXES[14] == " quattuordecillion";
    } else if len > 42 {
      assert k == 14 && SUFFIXES[13] == " tredecillion";
    } else if len > 39 {
      assert k == 13 && SUFFIXES[12] == " duodecillion";
    } else if len > 36 {
      assert k == 12 && SUFFIXES[11] == " undecillion";
    } else if len > 33 {
      assert k == 11 && SUFFIXES[10] == " decillion";
    } else if len > 30 {
      assert k == 10 && SUFFIXES[9] == " nonillion";
    } else if len > 27 {
      assert k == 9 && SUFFIXES[8] == " octillion";
    } else if len > 24 {
      assert k == 8 && SUFFIXES[7] == " septillion";
    } else if len > 21 {
      assert k == 7 && SUFFIXES[6] == " sextillion";
    } else if len > 18 {
      assert k == 6 && SUFFIXES[5] == " quintillion";
    } else if len > 15 {
      assert k == 5 && SUFFIXES[4] == " quadrillion";
    } else if len > 12 {
      assert k == 4 && SUFFIXES[3] == " trillion";
    } else if len > 9 {
      assert k == 3 && SUFFIXES[2] == " billion";
    } else if len > 6 {
      assert k == 2 && SUFFIXES[1] == " million";
    } else if len > 3 {
      assert k == 1 && SUFFIXES[0] == " thousand";
    } else {
      assert str[..len] == str;
    }
  }

  /** `n` without its last `j` decimal digits. */
  function DropDigits(n: nat, j: nat): nat
  {
    if j == 0 then n else DropDigits(n / 10, j - 1)
  }

  /** Dropping decimal digits of the number drops the same characters from the end of its text. */
  lemma {:induction false} DropDigitsText(n: nat, j: nat)
    requires j < |NatToString(n)|
    ensures NatToString(DropDigits(n, j)) == NatToString(n)[..|NatToString(n)| - j]
  {
    if j > 0 {
      assert n >= 10;
      assert NatToString(n) == NatToString(n / 10) + [Digit(n % 10)];
      DropDigitsText(n / 10, j - 1);
      assert NatToString(n)[..|NatToString(n)| - j] == NatToString(n / 10)[..|NatToString(n / 10)| - (j - 1)];
    } else {
      assert NatToString(n)[..|NatToString(n)|] == NatToString(n);
    }
  }

  /**
   * The abbreviation of a number shows the number with its last 3k digits dropped, followed by the
   * k-th suffix, where k is the number of groups dropped (no suffix when none).
   */
  lemma ShortOfNumber(n: nat)
    ensures var k := Groups(|NatToString(n)|);
            ShortNumberRepresentation(NatToString(n)) ==
              NatToString(DropDigits(n, 3 * k)) + (if k == 0 then "" else SUFFIXES[k - 1])
  {
    var s := NatToString(n);
    var k := Groups(|s|);
    ShortByGroups(s);
    if k == 0 {
      assert DropDigits(n, 0) == n;
      assert s[..|s|] == s;
    } else {
      DropDigitsText(n, 3 * k);
    }
  }

  datatype MouseButton = MouseLeft | MouseMiddle | MouseRight | MouseX1 | MouseX2

  /** The delay between scoring clicks, in seconds. */
  const CLICK_DELAY: real := 0.2

  class Clicker {
    var score: nat
    var power: nat
    var clickDelay: real
    var scoreText: string
    var powerText: string

    constructor()
      ensures score == 0 && power == 1 && clickDelay == 0.0
      ensures scoreText == "Hold LMB to play.\nClick RMB to upgrade power." && powerText == "Power: 1"
    {
      score := 0;
      power := 1;
      clickDelay := 0.0;
      scoreText := "Hold LMB to play.\nClick RMB to upgrade power.";
      powerText := "Power: " + NatToString(1);
    }

    /**
     * HandleUpdate: the delay runs down by the time step; while the left button is held and the
     * delay has run out, the score grows by the power, is shown abbreviated, and the delay restarts.
     */
    method HandleUpdate(timeStep: real, leftDown: bool)
      modifies this`score, this`clickDelay, this`scoreText
      ensures var delay := if old(clickDelay) > 0.0 then old(clickDelay) - timeStep else old(clickDelay);
              if leftDown && delay <= 0.0 then
                score == old(score) + power && clickDelay == CLICK_DELAY &&
                scoreText == ShortNumberRepresentation(NatToString(score))
              else
                score == old(score) && clickDelay == delay && scoreText == old(scoreText)
    {
      if clickDelay > 0.0 {
        clickDelay := clickDelay - timeStep;
      }
      if leftDown && clickDelay <= 0.0 {
        score := score + power;
        scoreText := ShortNumberRepresentation(NatToString(score));
        clickDelay := CLICK_DELAY;
      }
    }

    /** HandleMouseButtonDown: the right button doubles the power and shows it abbreviated; other buttons do nothing. */
    method HandleMouseButtonDown(button: MouseButton)
      modifies this`power, this`powerText
      ensures button == MouseRight ==> power == 2 * old(power) && powerText == "Power: " + ShortNumberRepresentation(NatToString(power))
      ensures button != MouseRight ==> power == old(power) && powerText == old(powerText)
    {
      if button == MouseRight {
        power := power * 2;
        powerText := "Power: " + ShortNumberRepresentation(NatToString(power));
      }
    }
  }
}
