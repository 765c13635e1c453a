/** The label of each entry of the move list: "Go to game start" for the
    first snapshot and "Go to move #N" for the snapshot after move N, with N
    written in decimal as JavaScript's string concatenation does. */
module MoveList {

  const StartLabel := "Go to game start"
  const MovePrefix := "Go to move #"

  function DigitChar(d: nat): (c: char)
    requires d < 10
    ensures '0' <= c <= '9' && DigitValue(c) == d
  {
    "0123456789"[d]
  }

  function DigitValue(c: char): nat
  {
    if '0' <= c <= '9' then (c as int) - ('0' as int) else 0
  }

  /** `n` written in decimal without leading zeros: only zero itself is
      written starting with '0'. */
  function Decimal(n: nat): (s: string)
    ensures |s| >= 1
    ensures forall k :: 0 <= k < |s| ==> '0' <= s[k] <= '9'
    ensures s[0] == '0' <==> n == 0
    ensures |s| > 1 ==> s[0] != '0'
  {
    if n < 10 then [DigitChar(n)] else Decimal(n / 10) + [DigitChar(n % 10)]
  }

  /** The number a string of decimal digits denotes. */
  function DecimalValue(s: string): nat
  {
    if s == [] then 0 else DecimalValue(s[..|s| - 1]) * 10 + DigitValue(s[|s| - 1])
  }

  /** Reading back the decimal form gives the number. */
  lemma {:induction false} DecimalRoundTrip(n: nat)
    ensures DecimalValue(Decimal(n)) == n
  {
    var s := Decimal(n);
    if n < 10 {
      assert s[..|s| - 1] == [];
    } else {
      DecimalRoundTrip(n / 10);
      assert s[..|s| - 1] == Decimal(n / 10);
    }
  }

  /** The button label of move list entry `move`: the start label for
      entry 0, otherwise the move prefix followed by the decimal digits of
      `move`, without leading zeros. */
  function MoveLabel(move: nat): (text: string)
    ensures move == 0 <==> text == StartLabel
    ensures move != 0 ==>
              |text| > |MovePrefix| && text[..|MovePrefix|] == MovePrefix &&
              DecimalValue(text[|MovePrefix|..]) == move &&
              text[|MovePrefix|] != '0' &&
              forall k :: |MovePrefix| <= k < |text| ==> '0' <= text[k] <= '9'
  {
    if move != 0 then
      var text := MovePrefix + Decimal(move);
      assert text[6] != StartLabel[6];
      assert text[|MovePrefix|..] == Decimal(move);
      DecimalRoundTrip(move);
      text
    else
      StartLabel
  }

  /** Different entries of the move list carry different labels. */
  lemma MoveLabelInjective(a: nat, b: nat)
    requires MoveLabel(a) == MoveLabel(b)
    ensures a == b
  {
    if a != 0 && b != 0 {
      var la, lb := MoveLabel(a), MoveLabel(b);
      assert la[|MovePrefix|..] == Decimal(a);
      assert lb[|MovePrefix|..] == Decimal(b);
      DecimalRoundTrip(a);
      DecimalRoundTrip(b);
    }
  }
}
