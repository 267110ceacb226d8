/**
 * `secondsToTimeString` of js/script.js: the timer's "minutes:seconds"
 * text, the seconds always written with two digits.
 */
module TimeFormat {
  /** The decimal digit character of 0 .. 9. */
  function DigitChar(n: int): (c: char)
    requires 0 <= n < 10
    ensures '0' <= c <= '9' && c as int - '0' as int == n
  {
    (n + 48) as char
  }

  /** A number's decimal text, as a template literal writes it. */
  function NatToString(n: nat): (s: string)
    ensures 1 <= |s|
    ensures forall k | 0 <= k < |s| :: '0' <= s[k] <= '9'
    ensures n < 10 ==> |s| == 1
    ensures 10 <= n < 100 ==> |s| == 2 && s[0] == DigitChar(n / 10)
    ensures |s| > 1 ==> s[0] != '0'
  {
    if n < 10 then [DigitChar(n)] else NatToString(n / 10) + [DigitChar(n % 10)]
  }

  /** The value of a string of decimal digits. */
  function ParseNat(s: string): (n: nat)
    requires forall k | 0 <= k < |s| :: '0' <= s[k] <= '9'
    decreases |s|
  {
    if s == [] then 0
    else ParseNat(s[..|s| - 1]) * 10 + (s[|s| - 1] as int - '0' as int)
  }

  /** Reading a written number back gives the number. */
  lemma {:induction false} ParseNatToString(n: nat)
    ensures ParseNat(NatToString(n)) == n
  {
    if n >= 10 {
      var s := NatToString(n);
      assert s[..|s| - 1] == NatToString(n / 10);
      ParseNatToString(n / 10);
    }
  }

  /** `secondsToTimeString(seconds)`. */
  function SecondsToTimeString(seconds: nat): (t: string)
    ensures |t| >= 4 && t[|t| - 3] == ':'
    ensures forall k | 0 <= k < |t| && k != |t| - 3 :: '0' <= t[k] <= '9'
    ensures t[|t| - 2] <= '5'
  {
    var minutes := NatToString(seconds / 60);
    if seconds % 60 < 10 then minutes + [':', '0'] + NatToString(seconds % 60)
    else minutes + [':'] + NatToString(seconds % 60)
  }

  /** Minutes times 60 plus seconds, for a "m:ss" text. */
  function ParseTime(t: string): (seconds: nat)
    requires |t| >= 4 && t[|t| - 3] == ':'
    requires forall k | 0 <= k < |t| && k != |t| - 3 :: '0' <= t[k] <= '9'
  {
    ParseNat(t[..|t| - 3]) * 60 + ParseNat(t[|t| - 2..])
  }

  /** The timer text determines the number of seconds it was made from. */
  lemma TimeStringRoundTrip(seconds: nat)
    ensures ParseTime(SecondsToTimeString(seconds)) == seconds
  {
    var t := SecondsToTimeString(seconds);
    var m, r := seconds / 60, seconds % 60;
    assert t[..|t| - 3] == NatToString(m);
    ParseNatToString(m);
    ParseNatToString(r);
    if r < 10 {
      assert t[|t| - 2..] == ['0'] + NatToString(r);
      assert ParseNat(['0'] + NatToString(r)) == r;
    } else {
      assert t[|t| - 2..] == NatToString(r);
    }
  }
}
