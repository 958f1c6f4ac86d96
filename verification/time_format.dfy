/** The `MM:SS` rendering of the elapsed seconds: minutes and seconds in
    decimal, each left-padded with '0' to two characters. Minutes are not
    wrapped into hours, so 100 minutes and more take three or more digits.
 */
module TimeFormat {

  predicate IsDigit(c: char) {
    '0' <= c <= '9'
  }

  predicate AllDigits(s: string) {
    forall i :: 0 <= i < |s| ==> IsDigit(s[i])
  }

  function DigitChar(d: nat): (c: char)
    requires d < 10
    ensures IsDigit(c) && (c as int) - ('0' as int) == d
  {
    ('0' as int + d) as char
  }

  /** The number a string of decimal digits denotes (the empty string denotes 0). */
  function DecimalValue(s: string): nat
    requires AllDigits(s)
    decreases |s|
  {
    if |s| == 0 then 0
    else DecimalValue(s[..|s| - 1]) * 10 + ((s[|s| - 1] as int) - ('0' as int))
  }

  /** `Number.prototype.toString()` of the non-negative integers the timer
      reaches: their shortest decimal digit string. */
  function NatToString(n: nat): (s: string)
    ensures |s| > 0 && AllDigits(s)
    ensures DecimalValue(s) == n
    ensures |s| > 1 ==> s[0] != '0'
    ensures |s| == 1 <==> n < 10
    ensures |s| <= 2 <==> n < 100
    decreases n
  {
    if n < 10 then [DigitChar(n)]
    else
      var s := NatToString(n / 10) + [DigitChar(n % 10)];
      assert s[..|s| - 1] == NatToString(n / 10);
      s
  }

  /** `String.prototype.padStart(len, fill)` with a one-character fill. */
  function PadStart(s: string, len: nat, fill: char): (r: string)
    ensures |r| == if |s| >= len then |s| else len
    ensures r[|r| - |s|..] == s
    ensures forall i :: 0 <= i < |r| - |s| ==> r[i] == fill
    decreases len - |s|
  {
    if |s| >= len then s else PadStart([fill] + s, len, fill)
  }

  /** Leading zeros do not change the value of a digit string. */
  lemma {:induction false} LeadingZeros(z: string, s: string)
    requires AllDigits(s) && forall i :: 0 <= i < |z| ==> z[i] == '0'
    ensures AllDigits(z + s) && DecimalValue(z + s) == DecimalValue(s)
    decreases |s|, |z|
  {
    if |s| > 0 {
      var t := z + s;
      assert t[..|t| - 1] == z + s[..|s| - 1];
      LeadingZeros(z, s[..|s| - 1]);
    } else if |z| > 0 {
      assert z + s == z;
      assert z[..|z| - 1] + [] == z[..|z| - 1];
      LeadingZeros(z[..|z| - 1], []);
    } else {
      assert z + s == [];
    }
  }

  /** Two-digit padding of a number, as the timer display does it. */
  function Pad2(n: nat): (s: string)
    ensures AllDigits(s) && DecimalValue(s) == n
    ensures |s| >= 2 && (n < 100 <==> |s| == 2)
    ensures |s| > 2 ==> s[0] != '0'
  {
    var d := NatToString(n);
    var s := PadStart(d, 2, '0');
    assert s == s[..|s| - |d|] + d;
    LeadingZeros(s[..|s| - |d|], d);
    s
  }

  /** Arithmetic step of `FormatTime`. */
  lemma MinutesSeconds(seconds: nat)
    ensures (seconds / 60) * 60 + seconds % 60 == seconds
    ensures seconds % 60 < 60
    ensures seconds / 60 < 100 <==> seconds < 6000
  {
  }

  /** The elapsed-time display: a minutes field and a two-digit seconds
      field around a colon. Reading both fields back as decimal numbers gives
      the minutes and the seconds below 60 that make up `seconds`; the
      minutes field has two digits exactly when the time is under 100
      minutes, as there is no rollover into hours. */
  function FormatTime(seconds: nat): (r: string)
    ensures exists mm, ss ::
      && r == mm + ":" + ss
      && AllDigits(mm) && AllDigits(ss)
      && |mm| >= 2 && |ss| == 2
      && DecimalValue(ss) < 60
      && DecimalValue(mm) * 60 + DecimalValue(ss) == seconds
      && (|mm| == 2 <==> seconds < 6000)
      && (|mm| > 2 ==> mm[0] != '0')
  {
    MinutesSeconds(seconds);
    var mm := Pad2(seconds / 60);
    var ss := Pad2(seconds % 60);
    assert |ss| == 2 && DecimalValue(ss) < 60;
    assert DecimalValue(mm) * 60 + DecimalValue(ss) == seconds;
    assert |mm| == 2 <==> seconds < 6000;
    var r := mm + ":" + ss;
    assert && r == mm + ":" + ss
           && AllDigits(mm) && AllDigits(ss)
           && |mm| >= 2 && |ss| == 2
           && DecimalValue(ss) < 60
           && DecimalValue(mm) * 60 + DecimalValue(ss) == seconds
           && (|mm| == 2 <==> seconds < 6000)
           && (|mm| > 2 ==> mm[0] != '0');
    r
  }
}
