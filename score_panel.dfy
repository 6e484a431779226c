/** The ScorePanel component's logic: formatTime, which shows the seconds left
    as M:SS, and the choice of the warning colour for the last ten seconds. */
module ScorePanel {
  datatype Option<T> = None | Some(value: T)

  predicate IsDigit(ch: char)
  {
    '0' <= ch <= '9'
  }

  predicate IsDigits(s: string)
  {
    forall i :: 0 <= i < |s| ==> IsDigit(s[i])
  }

  /** The character of decimal digit d. */
  function DigitChar(d: nat): (ch: char)
    requires d < 10
    ensures IsDigit(ch) && ch as int - '0' as int == d
  {
    ('0' as int + d) as char
  }

  /** `${n}` for a non-negative integer: its decimal digits, without leading
      zeros. */
  function NatToString(n: nat): (s: string)
    ensures |s| >= 1 && IsDigits(s)
    ensures |s| == 1 <==> n < 10
    ensures |s| > 1 ==> s[0] != '0'
  {
    if n < 10 then [DigitChar(n)] else NatToString(n / 10) + [DigitChar(n % 10)]
  }

  /** The number a string of decimal digits denotes (0 for the empty string). */
  function DigitsValue(s: string): nat
    requires IsDigits(s)
  {
    if |s| == 0 then 0 else DigitsValue(s[..|s| - 1]) * 10 + (s[|s| - 1] as int - '0' as int)
  }

  /** Reading the digits of `${n}` back gives n. */
  lemma {:induction false} NatToStringRoundTrip(n: nat)
    ensures DigitsValue(NatToString(n)) == n
  {
    if n >= 10 {
      var s := NatToString(n);
      NatToStringRoundTrip(n / 10);
      assert s[..|s| - 1] == NatToString(n / 10);
    }
  }

  /** The seconds field of formatTime: a leading zero below ten, so always
      two digits, reading back as secs. */
  function PadSeconds(secs: nat): (field: string)
    requires secs < 60
    ensures |field| == 2 && IsDigits(field)
    ensures DigitsValue(field) == secs
  {
    NatToStringRoundTrip(secs);
    var digits := NatToString(secs);
    if secs < 10 then
      assert DigitsValue(['0']) == 0;
      assert ['0'] + digits == ['0', digits[0]];
      assert (['0'] + digits)[..1] == ['0'];
      ['0'] + digits
    else
      assert NatToString(secs / 10) == [DigitChar(secs / 10)];
      digits
  }

  /** formatTime: the minutes unpadded (a leading zero only for zero minutes),
      a colon, the two-digit seconds field. */
  function FormatTime(seconds: nat): (r: string)
    ensures |r| >= 4
    ensures forall i :: 0 <= i < |r| ==> (r[i] == ':' <==> i == |r| - 3)
    ensures forall i :: 0 <= i < |r| && i != |r| - 3 ==> IsDigit(r[i])
    ensures |r| > 4 ==> r[0] != '0'
  {
    var mins := seconds / 60;
    var secs := seconds % 60;
    var minutes := NatToString(mins);
    var field := PadSeconds(secs);
    assert forall i :: 0 <= i < |minutes| ==> (minutes + ":" + field)[i] == minutes[i];
    assert forall i :: 0 <= i < 2 ==> (minutes + ":" + field)[|minutes| + 1 + i] == field[i];
    minutes + ":" + field
  }

  /** Position of the first ':' in s, or |s| when there is none. */
  function FirstColon(s: string): (i: nat)
    ensures i <= |s|
    ensures i < |s| ==> s[i] == ':'
    ensures forall j :: 0 <= j < i ==> s[j] != ':'
  {
    if |s| == 0 || s[0] == ':' then 0 else 1 + FirstColon(s[1..])
  }

  /** The time a minutes field and a two-digit seconds field denote. */
  function FieldsValue(minutes: string, field: string): Option<nat>
  {
    if |minutes| >= 1 && |field| == 2 && IsDigits(minutes) && IsDigits(field) && DigitsValue(field) < 60
    then Some(DigitsValue(minutes) * 60 + DigitsValue(field))
    else None
  }

  /** Reads an M:SS display back: the digits before the colon are minutes,
      the two digits after it are seconds. */
  function ParseTime(s: string): Option<nat>
  {
    var i := FirstColon(s);
    if i == |s| then None else FieldsValue(s[..i], s[i + 1..])
  }

  /** The colon that the minutes field precedes is the first one. */
  lemma ColonAfterMinutes(minutes: string, field: string)
    requires IsDigits(minutes)
    ensures FirstColon(minutes + ":" + field) == |minutes|
  {
    var r := minutes + ":" + field;
    assert r[|minutes|] == ':';
    forall j | 0 <= j < |minutes|
      ensures r[j] != ':'
    {
      assert r[j] == minutes[j];
    }
  }

  /** A display is read by its two fields around its first colon. */
  lemma ParseFields(minutes: string, field: string)
    requires |minutes| >= 1 && IsDigits(minutes)
    requires |field| == 2 && IsDigits(field) && DigitsValue(field) < 60
    ensures ParseTime(minutes + ":" + field) == FieldsValue(minutes, field)
  {
    var r := minutes + ":" + field;
    ColonAfterMinutes(minutes, field);
    assert r[..|minutes|] == minutes;
    assert r[|minutes| + 1..] == field;
  }

  /** The display denotes exactly the number of seconds it was made from. */
  lemma FormatTimeRoundTrip(seconds: nat)
    ensures ParseTime(FormatTime(seconds)) == Some(seconds)
  {
    var minutes := NatToString(seconds / 60);
    var field := PadSeconds(seconds % 60);
    assert FormatTime(seconds) == minutes + ":" + field;
    ParseFields(minutes, field);
    NatToStringRoundTrip(seconds / 60);
    var mins, secs := DigitsValue(minutes), DigitsValue(field);
    assert mins == seconds / 60 && secs == seconds % 60;
    assert mins * 60 + secs == seconds;
  }

  /** The two classes of the time display: "text-red-300" and "text-white". */
  datatype TimeColour = Warning | Normal

  /** The colour choice of the time display in ScorePanel: the warning
      colour for ten seconds or fewer, the normal one otherwise. */
  function TimeColourFor(timeLeft: int): (colour: TimeColour)
    ensures colour == Warning <==> timeLeft <= 10
  {
    if timeLeft <= 10 then Warning else Normal
  }
}
