/** The date readout of a clock face: the day of the month, padded with a
    leading "0" below 10 (index.ts, updateDate). */
module DateReadout {
  import opened Decimal

  /** The readout text for `day`. It reads back as `day`, starts with '0'
      exactly for single-digit days, and has two characters for every day
      a month can have. */
  function DateText(day: nat): (s: string)
    ensures AllDigits(s) && DigitsValue(s) == day
    ensures |s| >= 2 && (s[0] == '0' <==> day < 10)
    ensures day < 100 ==> |s| == 2
  {
    DigitsValueOfNatToString(day);
    NatToStringLength(day);
    if day < 10 then
      DigitsValueLeadingZero(NatToString(day));
      "0" + NatToString(day)
    else
      NatToString(day)
  }

  /** Every day of a month, 1 to 31, is shown as exactly two characters. */
  lemma DateTextOfMonthDay(day: nat)
    requires 1 <= day <= 31
    ensures |DateText(day)| == 2
    ensures day < 10 ==> DateText(day) == "0" + NatToString(day)
    ensures day >= 10 ==> DateText(day) == NatToString(day)
  {
  }
}
